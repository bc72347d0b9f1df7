/**
  Calls over bounded channels, framework/go/leaf/chanrpc/chanrpc.go.

  The class holds one client, one server and the channels between them.  Each method is one atomic step
  of some goroutine: a client operation, a step of the server, or a call by somebody else.  A send that
  the source performs without a select is guarded by an assertion that the channel has room.
*/
module ChanRpc {
  import opened Options

  /** The three admitted forms of a registered function, and of a callback. */
  datatype Form = NoResult | OneResult | ManyResults

  /** The last argument of AsynCall. */
  datatype Callback = Missing | Invalid | Valid(form: Form)

  /** The channel a reply goes to: ChanAsynRet, chanSyncRet, or one that is not this client's. */
  datatype Dest = Asyn | Sync | Elsewhere

  datatype Reason = NotAttached | NotRegistered | Mismatch | ChannelFull | ServerClosed | TooManyCalls

  /** What a reply says.  The first two are how the registered function ended. */
  datatype Result = Returned(value: nat) | Panicked(value: nat) | NotRun(reason: Reason)

  /** A call on its way (`result` is absent) or its reply. */
  datatype Job = Request(token: nat, dest: Dest) | Reply(token: nat, dest: Dest, result: Result)

  /** Where the client's goroutine stands. */
  datatype Client =
    | Ready
    | Counting                 // in AsynCall, before pendingAsynCall++
    | InCall(token: nat)       // in Call0, Call1 or CallN, before the receive

  // ---------- bookkeeping over lists of jobs ----------

  function Tokens(s: seq<Job>): multiset<nat> {
    if s == [] then multiset{} else multiset{s[0].token} + Tokens(s[1..])
  }

  function CountTo(s: seq<Job>, dest: Dest): nat {
    if s == [] then 0 else (if s[0].dest == dest then 1 else 0) + CountTo(s[1..], dest)
  }

  lemma {:induction false} Concat(a: seq<Job>, b: seq<Job>)
    ensures Tokens(a + b) == Tokens(a) + Tokens(b)
    ensures forall d :: CountTo(a + b, d) == CountTo(a, d) + CountTo(b, d)
  {
    if a == [] {
      assert a + b == b;
    } else {
      assert (a + b)[1..] == a[1..] + b;
      Concat(a[1..], b);
    }
  }

  lemma Append(a: seq<Job>, x: Job)
    ensures Tokens(a + [x]) == Tokens(a) + multiset{x.token}
    ensures forall d :: CountTo(a + [x], d) == CountTo(a, d) + if x.dest == d then 1 else 0
  {
    Concat(a, [x]);
    assert [x][1..] == [];
    assert forall d :: CountTo([x], d) == if x.dest == d then 1 else 0;
  }

  lemma {:induction false} Present(s: seq<Job>, k: nat)
    requires k < |s|
    ensures s[k].token in Tokens(s)
  {
    if k > 0 {
      Present(s[1..], k - 1);
      assert s[1..][k - 1] == s[k];
    }
  }

  lemma NoCalls(dest: Dest)
    ensures CountTo([], dest) == 0
  {
  }

  lemma {:induction false} NoneTo(s: seq<Job>, dest: Dest)
    requires CountTo(s, dest) == 0
    ensures forall i :: 0 <= i < |s| ==> s[i].dest != dest
  {
    if s != [] {
      NoneTo(s[1..], dest);
      assert s == [s[0]] + s[1..];
    }
  }

  lemma {:induction false} Holder(s: seq<Job>, t: nat) returns (k: nat)
    requires t in Tokens(s)
    ensures k < |s| && s[k].token == t
  {
    if s[0].token == t {
      k := 0;
    } else {
      k := Holder(s[1..], t);
      k := k + 1;
    }
  }

  // ---------- the calls of a run, wherever they are ----------

  /** A job belongs to a call that was made, and goes where that call said. */
  predicate Known(kinds: seq<Dest>, j: Job) {
    j.token < |kinds| && j.dest == kinds[j.token]
  }

  /** A reply tells what happened to its own function: how it ended, or that it was never run. */
  predicate Honest(kinds: seq<Dest>, ran: map<nat, Result>, j: Job) {
    && j.Reply? && Known(kinds, j)
    && if j.result.NotRun? then j.token !in ran else j.token in ran && ran[j.token] == j.result
  }

  /** These are honest replies, to these channels. */
  predicate Replies(kinds: seq<Dest>, ran: map<nat, Result>, s: seq<Job>, to: set<Dest>) {
    forall i :: 0 <= i < |s| ==> Honest(kinds, ran, s[i]) && s[i].dest in to
  }

  /** These are calls whose functions have not been run. */
  predicate Calls(kinds: seq<Dest>, ran: map<nat, Result>, s: seq<Job>) {
    forall i :: 0 <= i < |s| ==> s[i].Request? && Known(kinds, s[i]) && s[i].token !in ran
  }

  /**
    Every call made so far: `kinds[t]` is where the reply to call number t goes, and `ran[t]` is how its
    function ended, if it was run.  `done` are the replies delivered, `asyn` and `sync` those waiting in the
    client's two channels, `flight` the calls at the server.
  */
  datatype Ledger = Ledger(
    kinds: seq<Dest>, ran: map<nat, Result>,
    done: seq<Job>, asyn: seq<Job>, sync: seq<Job>, flight: seq<Job>)
  {
    function Total(): multiset<nat> {
      Tokens(done) + Tokens(asyn) + Tokens(sync) + Tokens(flight)
    }

    /** Each call made is in exactly one place. */
    ghost predicate Once() {
      forall t: nat :: Total()[t] == if t < |kinds| then 1 else 0
    }

    ghost predicate Ok() {
      && Once()
      && (forall t :: t in ran ==> t < |kinds|)
      && Replies(kinds, ran, done, {Asyn, Sync, Elsewhere})
      && Replies(kinds, ran, asyn, {Asyn})
      && Replies(kinds, ran, sync, {Sync})
      && Calls(kinds, ran, flight)
    }

    /** A new call that is refused on the spot: its reply is delivered, or queued behind others. */
    function Refused(dest: Dest, reason: Reason, queued: bool): Ledger {
      var j := Reply(|kinds|, dest, NotRun(reason));
      if queued then this.(kinds := kinds + [dest], asyn := asyn + [j])
      else this.(kinds := kinds + [dest], done := done + [j])
    }

    /** A new call that reaches the server. */
    function Sent(dest: Dest): Ledger {
      this.(kinds := kinds + [dest], flight := flight + [Request(|kinds|, dest)])
    }

    /** Call k at the server is answered. */
    function Answered(k: nat, result: Result): Ledger
      requires k < |flight|
    {
      var c := flight[k];
      var j := Reply(c.token, c.dest, result);
      var l := this.(flight := flight[..k] + flight[k + 1..],
          ran := if result.NotRun? then ran else ran[c.token := result]);
      match c.dest
      case Asyn => l.(asyn := asyn + [j])
      case Sync => l.(sync := sync + [j])
      case Elsewhere => l.(done := done + [j])
    }

    /** The first reply of one of the client's channels is delivered. */
    function Delivered(dest: Dest): Ledger
      requires if dest == Asyn then asyn != [] else sync != []
    {
      if dest == Asyn then this.(asyn := asyn[1..], done := done + [asyn[0]])
      else this.(sync := sync[1..], done := done + [sync[0]])
    }
  }

  lemma NothingYet()
    ensures Ledger([], map[], [], [], [], []).Ok()
  {
    assert Tokens([]) == multiset{};
  }

  lemma OneMoreCall(l: Ledger, m: Ledger)
    requires l.Once() && |m.kinds| == |l.kinds| + 1 && m.Total() == l.Total() + multiset{|l.kinds|}
    ensures m.Once()
  {
  }

  /** Another call, or another function run, leaves a list of other calls as it was. */
  lemma ListsGrow(l: Ledger, kinds: seq<Dest>)
    requires l.Ok() && l.kinds <= kinds
    ensures forall s, to :: Replies(l.kinds, l.ran, s, to) ==> Replies(kinds, l.ran, s, to)
    ensures forall s :: Calls(l.kinds, l.ran, s) ==> Calls(kinds, l.ran, s)
  {
    assert forall j :: Honest(l.kinds, l.ran, j) ==> Honest(kinds, l.ran, j);
  }

  lemma RefusedKeeps(l: Ledger, dest: Dest, reason: Reason, queued: bool)
    requires l.Ok() && (queued ==> dest == Asyn)
    ensures l.Refused(dest, reason, queued).Ok()
  {
    hide Tokens, Ledger.Once;
    var j := Reply(|l.kinds|, dest, NotRun(reason));
    var m := l.Refused(dest, reason, queued);
    Append(l.asyn, j);
    Append(l.done, j);
    OneMoreCall(l, m);
    ListsGrow(l, m.kinds);
    assert |l.kinds| !in l.ran;
  }

  lemma SentKeeps(l: Ledger, dest: Dest)
    requires l.Ok()
    ensures l.Sent(dest).Ok()
    ensures forall d :: CountTo(l.Sent(dest).flight, d) == CountTo(l.flight, d) + if d == dest then 1 else 0
  {
    hide Tokens, CountTo, Ledger.Once;
    var m := l.Sent(dest);
    Append(l.flight, Request(|l.kinds|, dest));
    OneMoreCall(l, m);
    ListsGrow(l, m.kinds);
    assert |l.kinds| !in l.ran;
  }

  lemma RemoveAt(s: seq<Job>, k: nat)
    requires k < |s|
    ensures Tokens(s) == Tokens(s[..k] + s[k + 1..]) + multiset{s[k].token}
    ensures forall d :: CountTo(s, d) == CountTo(s[..k] + s[k + 1..], d) + if s[k].dest == d then 1 else 0
  {
    hide Tokens, CountTo;
    assert s == s[..k] + [s[k]] + s[k + 1..];
    Concat(s[..k] + [s[k]], s[k + 1..]);
    Append(s[..k], s[k]);
    Concat(s[..k], s[k + 1..]);
  }

  /** A function that has run changes nothing for lists without its token. */
  lemma AbsentFrom(kinds: seq<Dest>, ran: map<nat, Result>, s: seq<Job>, t: nat, result: Result)
    requires t !in Tokens(s)
    ensures forall to :: Replies(kinds, ran, s, to) ==> Replies(kinds, ran[t := result], s, to)
    ensures Calls(kinds, ran, s) ==> Calls(kinds, ran[t := result], s)
  {
    forall i | 0 <= i < |s| ensures s[i].token != t {
      Present(s, i);
    }
  }

  lemma AloneInFlight(l: Ledger, k: nat)
    requires l.Once() && k < |l.flight| && l.flight[k].token < |l.kinds|
    ensures var t := l.flight[k].token;
      && t !in Tokens(l.done) && t !in Tokens(l.asyn) && t !in Tokens(l.sync)
      && t !in Tokens(l.flight[..k] + l.flight[k + 1..])
  {
    hide Tokens, CountTo;
    RemoveAt(l.flight, k);
    assert l.Total()[l.flight[k].token] == 1;
  }

  lemma AnsweredOnce(l: Ledger, k: nat, result: Result)
    requires l.Once() && k < |l.flight|
    ensures l.Answered(k, result).Once()
  {
    hide Tokens, CountTo;
    var j := Reply(l.flight[k].token, l.flight[k].dest, result);
    RemoveAt(l.flight, k);
    Append(l.asyn, j);
    Append(l.sync, j);
    Append(l.done, j);
    assert l.Answered(k, result).Total() == l.Total();
  }

  /** An answered call was nowhere else, so its running changes no other call's story. */
  lemma AnsweredKeeps(l: Ledger, k: nat, result: Result)
    requires l.Ok() && k < |l.flight|
    ensures l.Answered(k, result).Ok()
    ensures var m := l.Answered(k, result); forall d ::
      CountTo(l.flight, d) == CountTo(m.flight, d) + if l.flight[k].dest == d then 1 else 0
  {
    hide Tokens, CountTo, Ledger.Once;
    var c := l.flight[k];
    var rest := l.flight[..k] + l.flight[k + 1..];
    RemoveAt(l.flight, k);
    AnsweredOnce(l, k, result);
    AloneInFlight(l, k);
    AbsentFrom(l.kinds, l.ran, l.done, c.token, result);
    AbsentFrom(l.kinds, l.ran, l.asyn, c.token, result);
    AbsentFrom(l.kinds, l.ran, l.sync, c.token, result);
    assert Calls(l.kinds, l.ran, rest);
    AbsentFrom(l.kinds, l.ran, rest, c.token, result);
  }

  lemma RemoveFirst(s: seq<Job>)
    requires s != []
    ensures Tokens(s) == multiset{s[0].token} + Tokens(s[1..])
  {
  }

  lemma DeliveredKeeps(l: Ledger, dest: Dest)
    requires l.Ok()
    requires if dest == Asyn then l.asyn != [] else l.sync != []
    ensures l.Delivered(dest).Ok()
  {
    hide Tokens, Honest;
    var from := if dest == Asyn then l.asyn else l.sync;
    RemoveFirst(from);
    Append(l.done, from[0]);
    assert l.Delivered(dest).Total() == l.Total();
  }

  /** With no asynchronous call at the server or in the queue, each has had its callback, once. */
  lemma AllCalledBack(l: Ledger, t: nat)
    requires l.Ok() && l.asyn == [] && CountTo(l.flight, Asyn) == 0
    requires t < |l.kinds| && l.kinds[t] == Asyn
    ensures Tokens(l.done)[t] == 1
  {
    assert l.Total()[t] == 1;
    if t in Tokens(l.sync) {
      var k := Holder(l.sync, t);
    }
    if t in Tokens(l.flight) {
      var k := Holder(l.flight, t);
      NoneTo(l.flight, Asyn);
    }
  }

  // ---------- the whole system as a value ----------

  /** A step of some goroutine. */
  datatype Move =
    | AsynCallMove(id: nat, cb: Callback, receiving: bool)
    | CountMove
    | CbMove
    | CallMove(id: nat, form: Form, receiving: bool)
    | ReceiveMove
    | OtherMove(receiving: bool)
    | TakeMove
    | ExecMove(result: Result)
    | CloseMove
    | DrainMove

  /** Client.f: the function must be there and have the form the caller expects. */
  function Find(functions: map<nat, Form>, attached: bool, id: nat, form: Form): (r: Option<Reason>)
    ensures r == None <==> attached && id in functions && functions[id] == form
  {
    if !attached then Some(NotAttached)
    else if id !in functions then Some(NotRegistered)
    else if functions[id] != form then Some(Mismatch)
    else None
  }

  /** `busy` says that a call is being served; it is the first in flight. */
  datatype View = View(functions: map<nat, Form>, attached: bool, callCap: nat, retCap: nat,
                       l: Ledger, client: Client, pending: int, closed: bool, busy: bool)
  {
    function Queued(): int { |l.flight| - if busy then 1 else 0 }

    predicate Room(receiving: bool) {
      Queued() < callCap || (callCap == 0 && receiving && !busy)
    }

    function Send(dest: Dest): View {
      this.(l := l.Sent(dest), busy := busy || callCap == 0)
    }

    function AfterAsynCall(id: nat, cb: Callback, receiving: bool): View {
      if client != Ready || !cb.Valid? then this
      else if pending >= retCap then this.(l := l.Refused(Asyn, TooManyCalls, false))
      else
        var v := this.(client := Counting);
        match Find(functions, attached, id, cb.form)
        case Some(reason) => v.(l := l.Refused(Asyn, reason, true))
        case None =>
          if closed then v.(l := l.Refused(Asyn, ServerClosed, true))
          else if Room(receiving) then v.Send(Asyn)
          else v.(l := l.Refused(Asyn, ChannelFull, true))
    }

    function AfterCall(id: nat, form: Form, receiving: bool): View {
      if client != Ready then this
      else
        match Find(functions, attached, id, form)
        case Some(reason) => this.(l := l.Refused(Sync, reason, false))
        case None =>
          if closed then this.(l := l.Refused(Sync, ServerClosed, false))
          else if Room(receiving) then Send(Sync).(client := InCall(|l.kinds|))
          else this
    }

    /** What a step does to the system; one that is not enabled does nothing. */
    function After(m: Move): View {
      match m
      case AsynCallMove(id, cb, receiving) => AfterAsynCall(id, cb, receiving)
      case CountMove => if client == Counting then this.(client := Ready, pending := pending + 1) else this
      case CbMove =>
        if client == Ready && l.asyn != [] then this.(l := l.Delivered(Asyn), pending := pending - 1) else this
      case CallMove(id, form, receiving) => AfterCall(id, form, receiving)
      case ReceiveMove =>
        if client.InCall? && l.sync != [] then this.(l := l.Delivered(Sync), client := Ready) else this
      case OtherMove(receiving) => if !closed && Room(receiving) then Send(Elsewhere) else this
      case TakeMove => if !busy && l.flight != [] then this.(busy := true) else this
      case ExecMove(result) =>
        if busy && l.flight != [] && !result.NotRun? then this.(l := l.Answered(0, result), busy := false) else this
      case CloseMove => this.(closed := true)
      case DrainMove =>
        if closed && Queued() > 0 then this.(l := l.Answered(if busy then 1 else 0, NotRun(ServerClosed))) else this
    }
  }

  function AfterAll(v: View, moves: seq<Move>): View {
    if moves == [] then v else AfterAll(v, moves[..|moves| - 1]).After(moves[|moves| - 1])
  }

  /** The AsynCalls in a run that a callback is owed for: made by a ready client, with a proper callback. */
  function Owed(v: View, moves: seq<Move>): nat {
    if moves == [] then 0
    else
      var before, m := AfterAll(v, moves[..|moves| - 1]), moves[|moves| - 1];
      Owed(v, moves[..|moves| - 1]) + if m.AsynCallMove? && before.client == Ready && m.cb.Valid? then 1 else 0
  }

  lemma RanStep(u: View, m: Move, t: nat)
    requires t in u.After(m).l.ran
    ensures if m.ExecMove? && u.busy && u.l.flight != [] && !m.result.NotRun? && u.l.flight[0].token == t then
        u.After(m).l.ran[t] == m.result
      else t in u.l.ran && u.After(m).l.ran[t] == u.l.ran[t]
  {
    hide Tokens, CountTo;
  }

  /** The result on record for a call is that of the step in which the server finished it. */
  lemma {:induction false} RanIsServed(v: View, moves: seq<Move>, t: nat) returns (i: nat)
    requires t in AfterAll(v, moves).l.ran && t !in v.l.ran
    ensures i < |moves| && moves[i] == ExecMove(AfterAll(v, moves).l.ran[t])
    ensures var u := AfterAll(v, moves[..i]); u.busy && u.l.flight != [] && u.l.flight[0].token == t
    decreases |moves|
  {
    hide View.After;
    var n := |moves| - 1;
    var u := AfterAll(v, moves[..n]);
    RanStep(u, moves[n], t);
    if moves[n].ExecMove? && u.busy && u.l.flight != [] && !moves[n].result.NotRun? && u.l.flight[0].token == t {
      i := n;
    } else {
      i := RanIsServed(v, moves[..n], t);
      assert moves[..n][..i] == moves[..i];
    }
  }

  function AsynIn(kinds: seq<Dest>): nat {
    if kinds == [] then 0 else AsynIn(kinds[..|kinds| - 1]) + if kinds[|kinds| - 1] == Asyn then 1 else 0
  }

  lemma AsynInAppend(kinds: seq<Dest>, d: Dest)
    ensures AsynIn(kinds + [d]) == AsynIn(kinds) + if d == Asyn then 1 else 0
  {
    assert (kinds + [d])[..|kinds|] == kinds;
  }

  lemma StepRecords(v: View, m: Move)
    ensures v.l.kinds <= v.After(m).l.kinds
    ensures AsynIn(v.After(m).l.kinds) ==
      AsynIn(v.l.kinds) + if m.AsynCallMove? && v.client == Ready && m.cb.Valid? then 1 else 0
  {
    hide Tokens, CountTo, AsynIn;
    AsynInAppend(v.l.kinds, Asyn);
    AsynInAppend(v.l.kinds, Sync);
    AsynInAppend(v.l.kinds, Elsewhere);
  }

  /** Calls stay on record, and the asynchronous ones on record are those made. */
  lemma {:induction false} RunRecords(v: View, moves: seq<Move>)
    ensures v.l.kinds <= AfterAll(v, moves).l.kinds
    ensures AsynIn(AfterAll(v, moves).l.kinds) == AsynIn(v.l.kinds) + Owed(v, moves)
    decreases |moves|
  {
    if moves != [] {
      hide View.After;
      RunRecords(v, moves[..|moves| - 1]);
      StepRecords(AfterAll(v, moves[..|moves| - 1]), moves[|moves| - 1]);
    }
  }

  // ---------- closing the client under every schedule ----------

  /** How many calls at the server there are up to the last one that owes the client a callback. */
  function Ahead(flight: seq<Job>): (n: nat)
    ensures n <= |flight|
  {
    if flight == [] then 0
    else if flight[|flight| - 1].dest == Asyn then |flight|
    else Ahead(flight[..|flight| - 1])
  }

  lemma AheadAppend(flight: seq<Job>, j: Job)
    ensures Ahead(flight + [j]) == if j.dest == Asyn then |flight| + 1 else Ahead(flight)
  {
    assert (flight + [j])[..|flight|] == flight;
  }

  lemma {:induction false} AheadRemove(flight: seq<Job>, k: nat)
    requires k < |flight|
    ensures Ahead(flight[..k] + flight[k + 1..]) <= Ahead(flight) - if k < Ahead(flight) then 1 else 0
    decreases |flight|
  {
    var n := |flight| - 1;
    var rest := flight[..k] + flight[k + 1..];
    if k == n {
      assert rest == flight[..n];
    } else {
      AheadRemove(flight[..n], k);
      assert flight[..n][..k] + flight[..n][k + 1..] == rest[..n - 1];
      assert rest == rest[..n - 1] + [flight[n]];
      AheadAppend(rest[..n - 1], flight[n]);
    }
  }

  lemma {:induction false} AheadOfOwed(flight: seq<Job>)
    requires CountTo(flight, Asyn) > 0
    ensures Ahead(flight) > 0
    decreases |flight|
  {
    var n := |flight| - 1;
    if flight[n].dest != Asyn {
      assert flight == flight[..n] + [flight[n]];
      Append(flight[..n], flight[n]);
      AheadOfOwed(flight[..n]);
    }
  }

  /** What is left to do before the last callback has run. */
  function ToDo(v: View): int {
    v.pending + 2 * Ahead(v.l.flight) + if Ahead(v.l.flight) > 0 && !v.busy then 1 else 0
  }

  /** A step that brings the last callback nearer. */
  predicate Productive(v: View, m: Move) {
    || (m.CbMove? && v.l.asyn != [])
    || (m.TakeMove? && !v.busy && Ahead(v.l.flight) > 0)
    || (m.ExecMove? && v.busy && !m.result.NotRun? && Ahead(v.l.flight) > 0)
    || (m.DrainMove? && v.closed && !v.busy && Ahead(v.l.flight) > 0)
  }

  /** A step of somebody other than the client. */
  predicate OfOthers(m: Move) {
    m.OtherMove? || m.TakeMove? || m.ExecMove? || m.CloseMove? || m.DrainMove?
  }

  /** The client has nothing else to do than to close. */
  predicate Closing(v: View) {
    v.client == Ready && (v.busy ==> v.l.flight != [])
  }

  /** While the client closes, no step of anybody, calls by others included, adds to what is left to do. */
  lemma ClosingStep(v: View, m: Move)
    requires Closing(v) && !m.AsynCallMove? && !m.CallMove?
    ensures Closing(v.After(m))
    ensures ToDo(v.After(m)) <= ToDo(v) - if Productive(v, m) then 1 else 0
  {
    hide Tokens, CountTo, Ahead;
    match m
    case OtherMove(_) => AheadAppend(v.l.flight, Request(|v.l.kinds|, Elsewhere));
    case ExecMove(_) => if v.l.flight != [] { AheadRemove(v.l.flight, 0); }
    case DrainMove => if v.closed && v.Queued() > 0 { AheadRemove(v.l.flight, if v.busy then 1 else 0); }
    case _ =>
  }

  /** How many steps of a run were productive. */
  function Progress(v: View, moves: seq<Move>): nat {
    if moves == [] then 0
    else Progress(v, moves[..|moves| - 1]) + if Productive(AfterAll(v, moves[..|moves| - 1]),
        moves[|moves| - 1]) then 1 else 0
  }

  /**
    Client.Close under every schedule: whatever the others do, after at most `ToDo` productive steps there is
    nothing left to do.
  */
  lemma {:induction false} ClosingEnds(v: View, moves: seq<Move>)
    requires Closing(v) && forall i :: 0 <= i < |moves| ==> !moves[i].AsynCallMove? && !moves[i].CallMove?
    ensures Closing(AfterAll(v, moves))
    ensures Progress(v, moves) + ToDo(AfterAll(v, moves)) <= ToDo(v)
    decreases |moves|
  {
    if moves != [] {
      hide View.After, ToDo, Productive;
      ClosingEnds(v, moves[..|moves| - 1]);
      ClosingStep(AfterAll(v, moves[..|moves| - 1]), moves[|moves| - 1]);
    }
  }

  /** As long as a callback is owed some step is productive. */
  lemma ClosingGoesOn(v: View, result: Result)
    requires Closing(v) && !result.NotRun? && 0 < v.pending == |v.l.asyn| + CountTo(v.l.flight, Asyn)
    ensures Productive(v, CbMove) || Productive(v, TakeMove) || Productive(v, ExecMove(result))
  {
    if v.l.asyn == [] {
      AheadOfOwed(v.l.flight);
    }
  }

  /** While the client waits in a synchronous call, only that call's reply can come. */
  ghost predicate OwnReply(client: Client, l: Ledger) {
    client.InCall? ==>
      && client.token < |l.kinds| && l.kinds[client.token] == Sync
      && (forall i :: 0 <= i < |l.sync| ==> l.sync[i].token == client.token)
      && (forall i :: 0 <= i < |l.flight| && l.flight[i].dest == Sync ==> l.flight[i].token == client.token)
  }

  lemma AnsweredOwnReply(client: Client, l: Ledger, k: nat, result: Result)
    requires OwnReply(client, l) && k < |l.flight|
    ensures OwnReply(client, l.Answered(k, result))
  {
  }

  lemma HeadHonest(l: Ledger)
    requires l.Ok() && l.sync != []
    ensures Honest(l.kinds, l.ran, l.sync[0])
  {
  }

  lemma FlightNotRun(l: Ledger)
    requires l.Ok() && l.flight != []
    ensures l.flight[0].token !in l.ran
  {
  }

  lemma QueueHead(served: seq<Job>, queue: seq<Job>)
    requires queue != []
    ensures var s := served + queue; var k := |served|;
      s[k] == queue[0] && s[..k] + s[k + 1..] == served + queue[1..]
  {
  }

  class System {
    // the server
    const functions: map<nat, Form>
    const callCap: nat
    var chanCall: seq<Job>
    var closed: bool
    var serving: Option<Job>
    // the client
    const attached: bool
    const retCap: nat
    var chanAsynRet: seq<Job>
    var chanSyncRet: seq<Job>
    var pendingAsynCall: int
    var client: Client

    // the calls made so far; a call is known by its number
    var kinds: seq<Dest>
    ghost var ran: map<nat, Result>
    ghost var done: seq<Job>

    /** The calls at the server, the one being served first. */
    ghost function Flight(): seq<Job>
      reads this
    {
      (if serving.Some? then [serving.value] else []) + chanCall
    }

    ghost function Now(): Ledger
      reads this
    {
      Ledger(kinds, ran, done, chanAsynRet, chanSyncRet, Flight())
    }

    /**
      Between client operations pendingAsynCall is the number of replies queued plus the number of calls
      in flight; during AsynCall it may be one behind.  Neither ever exceeds the channel.
    */
    ghost predicate Counted()
      reads this
    {
      && |chanAsynRet| + CountTo(Flight(), Asyn) == pendingAsynCall + (if client == Counting then 1 else 0)
      && 0 <= pendingAsynCall && |chanAsynRet| + CountTo(Flight(), Asyn) <= retCap
      && |chanSyncRet| + CountTo(Flight(), Sync) == (if client.InCall? then 1 else 0)
    }

    ghost predicate Inv()
      reads this
    {
      Now().Ok() && Counted() && OwnReply(client, Now()) && |chanCall| <= callCap
    }

    constructor (functions: map<nat, Form>, callCap: nat, attached: bool, retCap: nat)
      ensures Inv() && client == Ready && kinds == []
    {
      this.functions, this.callCap, this.attached, this.retCap := functions, callCap, attached, retCap;
      chanCall, closed, serving := [], false, None;
      chanAsynRet, chanSyncRet, pendingAsynCall, client := [], [], 0, Ready;
      kinds, ran, done := [], map[], [];
      new;
      hide Ledger.Ok, CountTo, Tokens;
      NothingYet();
      NoCalls(Asyn);
      NoCalls(Sync);
      assert Flight() == [];
    }

    function Lookup(id: nat, form: Form): (r: Option<Reason>)
      ensures r == None <==> attached && id in functions && functions[id] == form
    {
      Find(functions, attached, id, form)
    }

    ghost function State(): View
      reads this
    {
      View(functions, attached, callCap, retCap, Now(), client, pendingAsynCall, closed, serving != None)
    }

    /** A send to ChanCall can proceed: room in the buffer, or a server at the other end of an unbuffered channel. */
    predicate CanSend(receiving: bool)
      reads this
    {
      |chanCall| < callCap || (callCap == 0 && receiving && serving == None)
    }

    /** The send itself. */
    method Send(dest: Dest, receiving: bool)
      requires Now().Ok() && !closed && CanSend(receiving) && |chanCall| <= callCap
      modifies this`chanCall, this`serving, this`kinds
      ensures Now() == old(Now()).Sent(dest) && |chanCall| <= callCap
      ensures Now().Ok()
      ensures forall d :: CountTo(Flight(), d) == CountTo(old(Flight()), d) + if d == dest then 1 else 0
      ensures serving != None <==> old(serving) != None || callCap == 0
    {
      hide CountTo, Ledger.Ok;
      SentKeeps(Now(), dest);
      var c := Request(|kinds|, dest);
      if |chanCall| < callCap {
        chanCall := chanCall + [c];
      } else {
        serving := Some(c);
      }
      kinds := kinds + [dest];
      assert Flight() == old(Flight()) + [Request(old(|kinds|), dest)];
    }

    /** Server.ret: the reply goes to its channel, which has room, so the server does not block. */
    method Ret(c: Job, result: Result)
      requires c.dest == Asyn ==> |chanAsynRet| < retCap
      requires c.dest == Sync ==> chanSyncRet == []
      modifies this`chanAsynRet, this`chanSyncRet, this`done
      ensures chanAsynRet == old(chanAsynRet) + if c.dest == Asyn then [Reply(c.token, c.dest, result)] else []
      ensures chanSyncRet == old(chanSyncRet) + if c.dest == Sync then [Reply(c.token, c.dest, result)] else []
      ensures done == old(done) + if c.dest == Elsewhere then [Reply(c.token, c.dest, result)] else []
    {
      var r := Reply(c.token, c.dest, result);
      match c.dest
      case Asyn =>
        assert |chanAsynRet| < retCap;
        chanAsynRet := chanAsynRet + [r];
      case Sync =>
        assert |chanSyncRet| < 1;
        chanSyncRet := chanSyncRet + [r];
      case Elsewhere =>
        done := done + [r];
    }

    /**
      AsynCall up to its counter.  A bad callback panics and nothing is called.  With the channel's worth
      of calls pending the callback runs at once; otherwise the call is with the server or its refusal is
      in ChanAsynRet, which had room for it.
    */
    method AsynCall(id: nat, cb: Callback, receiving: bool) returns (panicked: bool)
      requires Inv() && client == Ready
      modifies this`chanCall, this`serving, this`kinds, this`chanAsynRet, this`client, this`done
      ensures Inv()
      ensures panicked == !cb.Valid?
      ensures panicked ==> Now() == old(Now()) && client == Ready
      ensures !panicked && pendingAsynCall >= retCap ==>
        client == Ready && Now() == old(Now()).Refused(Asyn, TooManyCalls, false)
      ensures !panicked && pendingAsynCall < retCap ==>
        && client == Counting
        && Now() == match Lookup(id, cb.form)
           case Some(reason) => old(Now()).Refused(Asyn, reason, true)
           case None =>
             if closed then old(Now()).Refused(Asyn, ServerClosed, true)
             else if old(CanSend(receiving)) then old(Now()).Sent(Asyn)
             else old(Now()).Refused(Asyn, ChannelFull, true)
      ensures State() == old(State()).AfterAsynCall(id, cb, receiving)
      ensures !panicked && pendingAsynCall >= retCap ==>
        done == old(done) + [Reply(old(|kinds|), Asyn, NotRun(TooManyCalls))] && chanAsynRet == old(chanAsynRet)
      ensures !panicked && pendingAsynCall < retCap ==>
        var err := if Lookup(id, cb.form).Some? then Lookup(id, cb.form)
                   else if closed then Some(ServerClosed)
                   else if old(CanSend(receiving)) then None
                   else Some(ChannelFull);
        chanAsynRet == old(chanAsynRet) + (if err.Some? then [Reply(old(|kinds|), Asyn, NotRun(err.value))] else [])
    {
      hide CountTo, Ledger.Ok;
      if !cb.Valid? {
        return true;
      }
      panicked := false;
      if pendingAsynCall >= retCap {
        RefusedKeeps(Now(), Asyn, TooManyCalls, false);
        done := done + [Reply(|kinds|, Asyn, NotRun(TooManyCalls))];
        kinds := kinds + [Asyn];
        return;
      }
      var err := Lookup(id, cb.form);
      if err == None {
        if closed {
          err := Some(ServerClosed);
        } else if CanSend(receiving) {
          Send(Asyn, receiving);
        } else {
          err := Some(ChannelFull);
        }
      }
      if err != None {
        RefusedKeeps(Now(), Asyn, err.value, true);
        assert |chanAsynRet| < retCap;
        chanAsynRet := chanAsynRet + [Reply(|kinds|, Asyn, NotRun(err.value))];
        kinds := kinds + [Asyn];
      }
      client := Counting;
    }

    /** The end of AsynCall. */
    method Count()
      requires Inv() && client == Counting
      modifies this`pendingAsynCall, this`client
      ensures Inv() && client == Ready && pendingAsynCall == old(pendingAsynCall) + 1
    {
      hide CountTo, Ledger.Ok;
      pendingAsynCall := pendingAsynCall + 1;
      client := Ready;
    }

    /** Cb(<-ChanAsynRet): the callback of the first reply runs. */
    method Cb()
      requires Inv() && client == Ready && chanAsynRet != []
      modifies this`chanAsynRet, this`pendingAsynCall, this`done
      ensures Inv() && pendingAsynCall == old(pendingAsynCall) - 1
      ensures Now() == old(Now()).Delivered(Asyn)
      ensures done == old(done) + [old(chanAsynRet)[0]] && chanAsynRet == old(chanAsynRet)[1..]
    {
      hide CountTo, Ledger.Ok;
      DeliveredKeeps(Now(), Asyn);
      pendingAsynCall := pendingAsynCall - 1;
      done := done + [chanAsynRet[0]];
      chanAsynRet := chanAsynRet[1..];
    }

    /** Call0, Call1 and CallN up to the receive.  `started` is false while the send blocks. */
    method Call(id: nat, form: Form, receiving: bool) returns (started: bool)
      requires Inv() && client == Ready
      modifies this`chanCall, this`serving, this`kinds, this`client, this`done
      ensures Inv()
      ensures started <==> Lookup(id, form) != None || closed || old(CanSend(receiving))
      ensures !started ==> Now() == old(Now()) && client == Ready
      ensures started ==>
        match Lookup(id, form)
        case Some(reason) => client == Ready && Now() == old(Now()).Refused(Sync, reason, false)
        case None =>
          if closed then client == Ready && Now() == old(Now()).Refused(Sync, ServerClosed, false)
          else client == InCall(old(|kinds|)) && Now() == old(Now()).Sent(Sync)
      ensures State() == old(State()).AfterCall(id, form, receiving)
    {
      hide CountTo, Ledger.Ok;
      var err := Lookup(id, form);
      if err == None {
        if closed {
          err := Some(ServerClosed);
        } else if CanSend(receiving) {
          client := InCall(|kinds|);
          NoneTo(Flight(), Sync);
          Send(Sync, receiving);
          return true;
        } else {
          return false;
        }
      }
      RefusedKeeps(Now(), Sync, err.value, false);
      done := done + [Reply(|kinds|, Sync, NotRun(err.value))];
      kinds := kinds + [Sync];
      return true;
    }

    /** The receive that ends a synchronous call: the reply is the caller's own. */
    method Receive() returns (r: Job)
      requires Inv() && client.InCall? && chanSyncRet != []
      modifies this`chanSyncRet, this`client, this`done
      ensures Inv() && client == Ready
      ensures r.token == old(client.token) && Honest(kinds, ran, r)
      ensures r == old(chanSyncRet)[0] && chanSyncRet == old(chanSyncRet)[1..] && done == old(done) + [r]
      ensures Now() == old(Now()).Delivered(Sync)
    {
      hide CountTo, Ledger.Ok, Honest;
      DeliveredKeeps(Now(), Sync);
      assert Honest(kinds, ran, chanSyncRet[0]) by { HeadHonest(Now()); }
      r := chanSyncRet[0];
      done := done + [r];
      chanSyncRet := chanSyncRet[1..];
      client := Ready;
    }

    /** A call made by somebody else; nothing happens while it blocks or when the server is closed. */
    method OtherCall(receiving: bool)
      requires Inv()
      modifies this`chanCall, this`serving, this`kinds
      ensures Inv()
      ensures State() == old(State()).After(OtherMove(receiving))
    {
      hide CountTo, Ledger.Ok;
      if !closed && CanSend(receiving) {
        Send(Elsewhere, receiving);
      }
    }

    /** The server takes the next call. */
    method Take()
      requires Inv() && serving == None && chanCall != []
      modifies this`chanCall, this`serving
      ensures Inv() && Now() == old(Now())
      ensures serving == Some(old(chanCall)[0]) && |chanCall| == old(|chanCall|) - 1
    {
      ghost var before := Now();
      serving := Some(chanCall[0]);
      chanCall := chanCall[1..];
      assert Now() == before;
    }

    /** Server.exec: the function returns or panics, and one reply is sent either way. */
    method Exec(result: Result)
      requires Inv() && serving != None && !result.NotRun?
      modifies this`serving, this`chanAsynRet, this`chanSyncRet, this`done, this`ran
      ensures Inv() && Now() == old(Now()).Answered(0, result) && serving == None
      ensures old(serving.value.token) !in old(ran)
      ensures ran == old(ran)[old(serving.value.token) := result]
      ensures var c := old(serving.value);
        && chanAsynRet == old(chanAsynRet) + (if c.dest == Asyn then [Reply(c.token, Asyn, result)] else [])
        && chanSyncRet == old(chanSyncRet) + (if c.dest == Sync then [Reply(c.token, Sync, result)] else [])
        && done == old(done) + (if c.dest == Elsewhere then [Reply(c.token, Elsewhere, result)] else [])
    {
      hide CountTo, Ledger.Ok, OwnReply;
      var c := serving.value;
      assert Flight()[0] == c;
      FlightNotRun(Now());
      AnsweredKeeps(Now(), 0, result);
      AnsweredOwnReply(client, Now(), 0, result);
      ghost var after := Now().Answered(0, result);
      serving := None;
      ran := ran[c.token := result];
      assert Flight() == after.flight;
      Ret(c, result);
      assert Now() == after;
    }

    /** Server.Close: a second close panics. */
    method Close() returns (panicked: bool)
      requires Inv()
      modifies this`closed
      ensures Inv() && closed && panicked == old(closed)
    {
      panicked := closed;
      closed := true;
    }

    /** One round of the loop in Server.Close: a call still queued is answered with an error. */
    method Drain()
      requires Inv() && closed && chanCall != []
      modifies this`chanCall, this`chanAsynRet, this`chanSyncRet, this`done
      ensures Inv() && |chanCall| == old(|chanCall|) - 1
      ensures Now() == old(Now()).Answered(if serving == None then 0 else 1, NotRun(ServerClosed))
      ensures chanCall == old(chanCall)[1..] && serving == old(serving) && ran == old(ran)
      ensures var c := old(chanCall)[0]; var said := NotRun(ServerClosed);
        && chanAsynRet == old(chanAsynRet) + (if c.dest == Asyn then [Reply(c.token, Asyn, said)] else [])
        && chanSyncRet == old(chanSyncRet) + (if c.dest == Sync then [Reply(c.token, Sync, said)] else [])
        && done == old(done) + (if c.dest == Elsewhere then [Reply(c.token, Elsewhere, said)] else [])
    {
      hide CountTo, Ledger.Ok, OwnReply;
      var c := chanCall[0];
      ghost var served := if serving.Some? then [serving.value] else [];
      ghost var k := |served|;
      QueueHead(served, chanCall);
      AnsweredKeeps(Now(), k, NotRun(ServerClosed));
      AnsweredOwnReply(client, Now(), k, NotRun(ServerClosed));
      ghost var after := Now().Answered(k, NotRun(ServerClosed));
      chanCall := chanCall[1..];
      assert Flight() == after.flight;
      Ret(c, NotRun(ServerClosed));
      assert Now() == after;
    }

    /** With nothing pending every AsynCall has had its callback exactly once. */
    lemma IdleMeansCalledBack()
      requires Inv() && client == Ready && pendingAsynCall == 0
      ensures forall t :: 0 <= t < |kinds| && kinds[t] == Asyn ==> Tokens(done)[t] == 1
    {
      forall t | 0 <= t < |kinds| && kinds[t] == Asyn ensures Tokens(done)[t] == 1 {
        AllCalledBack(Now(), t);
      }
    }

    /** No call has more than one reply delivered. */
    lemma AtMostOnce(t: nat)
      requires Inv()
      ensures Tokens(done)[t] <= 1
      ensures Replies(kinds, ran, done, {Asyn, Sync, Elsewhere})
    {
      assert Now().Total()[t] <= 1;
    }

    /** In the class's own terms: a closing client that is owed callbacks can always be brought nearer to them. */
    lemma ClosingIsLive(result: Result)
      requires Inv() && client == Ready && pendingAsynCall > 0 && !result.NotRun?
      ensures Closing(State()) && ToDo(State()) > 0
      ensures Productive(State(), CbMove) || Productive(State(), TakeMove) || Productive(State(), ExecMove(result))
    {
      ClosingGoesOn(State(), result);
    }

    /** Some steps of the others while the client closes: none adds to what is left to do. */
    method Others(moves: seq<Move>)
      requires Inv() && client == Ready && forall m :: m in moves ==> OfOthers(m)
      modifies this
      ensures Inv() && client == Ready && ToDo(State()) <= old(ToDo(State()))
      ensures pendingAsynCall == old(pendingAsynCall) && old(kinds) <= kinds && AsynIn(kinds) == AsynIn(old(kinds))
    {
      hide CountTo, Tokens, Ledger.Ok, System.Counted, OwnReply, ToDo, Productive;
      for i := 0 to |moves|
        invariant Inv() && client == Ready && ToDo(State()) <= old(ToDo(State()))
        invariant pendingAsynCall == old(pendingAsynCall) && old(kinds) <= kinds && AsynIn(kinds) == AsynIn(old(kinds))
      {
        assert moves[i] in moves;
        IsClosing();
        ClosingStep(State(), moves[i]);
        StepRecords(State(), moves[i]);
        Do(moves[i]);
      }
    }

    lemma IsClosing()
      requires Inv() && client == Ready
      ensures Closing(State())
    {
    }

    /** A step towards the next callback; `result` is how a function that ends has ended. */
    method Towards(result: Result)
      requires Inv() && client == Ready && pendingAsynCall > 0 && !result.NotRun?
      modifies this
      ensures Inv() && client == Ready && ToDo(State()) < old(ToDo(State())) && pendingAsynCall >= 0
      ensures kinds == old(kinds)
    {
      hide CountTo, Tokens, Ledger.Ok, System.Counted, OwnReply, ToDo, Ahead;
      ClosingIsLive(result);
      if chanAsynRet != [] {
        ClosingStep(State(), CbMove);
        Do(CbMove);
      } else if serving != None {
        ClosingStep(State(), ExecMove(result));
        Do(ExecMove(result));
      } else if closed {
        ClosingStep(State(), DrainMove);
        Do(DrainMove);
      } else {
        ClosingStep(State(), TakeMove);
        Do(TakeMove);
      }
      NothingLeft();
    }

    /**
      Client.Close: before each step towards the next callback the others may take any finite number of steps, calls
      of their own and closing the server included.  It ends, and every AsynCall has had its callback exactly
      once.  Functions end as `ends` says.
    */
    method CloseClient(others: nat -> seq<Move>, ends: nat -> Result)
      requires Inv() && client == Ready
      requires forall i, m :: m in others(i) ==> OfOthers(m)
      requires forall i :: !ends(i).NotRun?
      modifies this
      ensures Inv() && client == Ready && pendingAsynCall == 0
      ensures old(kinds) <= kinds && AsynIn(kinds) == AsynIn(old(kinds))
      ensures forall t :: 0 <= t < |kinds| && kinds[t] == Asyn ==> Tokens(done)[t] == 1
    {
      hide CountTo, Tokens, Ledger.Ok, System.Counted, OwnReply, ToDo;
      var i := 0;
      NothingLeft();
      while pendingAsynCall > 0
        invariant Inv() && client == Ready && pendingAsynCall >= 0 && ToDo(State()) >= 0
        invariant old(kinds) <= kinds && AsynIn(kinds) == AsynIn(old(kinds))
        decreases ToDo(State())
      {
        Others(others(i));
        Towards(ends(i));
        NothingLeft();
        i := i + 1;
      }
      IdleMeansCalledBack();
    }

    lemma NothingLeft()
      requires Inv()
      ensures ToDo(State()) >= 0 && pendingAsynCall >= 0
    {
    }

    /** Any interleaving of the steps; a step that is not enabled leaves everything as it is. */
    method Run(moves: seq<Move>)
      requires Inv()
      modifies this
      ensures Inv() && State() == AfterAll(old(State()), moves)
      ensures old(kinds) <= kinds && AsynIn(kinds) == AsynIn(old(kinds)) + Owed(old(State()), moves)
      ensures Replies(kinds, ran, done, {Asyn, Sync, Elsewhere})
      ensures forall t: nat :: Tokens(done)[t] <= 1
      ensures client == Ready && pendingAsynCall == 0 ==>
        forall t :: 0 <= t < |kinds| && kinds[t] == Asyn ==> Tokens(done)[t] == 1
    {
      hide CountTo, Tokens, Ledger.Ok, System.Counted, OwnReply;
      ghost var v := State();
      for i := 0 to |moves|
        invariant Inv() && State() == AfterAll(v, moves[..i])
      {
        hide View.After;
        assert moves[..i + 1][..i] == moves[..i];
        Do(moves[i]);
      }
      assert moves[..|moves|] == moves;
      RunRecords(v, moves);
      AtMostOnce(0);
      forall t: nat ensures Tokens(done)[t] <= 1 {
        AtMostOnce(t);
      }
      if client == Ready && pendingAsynCall == 0 {
        IdleMeansCalledBack();
      }
    }

    /** One step of some goroutine. */
    method Do(m: Move)
      requires Inv()
      modifies this
      ensures Inv() && State() == old(State()).After(m)
    {
      hide CountTo, Tokens, Ledger.Ok, System.Counted, OwnReply;
      if OfOthers(m) {
        DoOther(m);
      } else {
        DoClient(m);
      }
    }

    method DoClient(m: Move)
      requires Inv() && !OfOthers(m)
      modifies this
      ensures Inv() && State() == old(State()).After(m)
    {
      hide CountTo, Tokens, Ledger.Ok, System.Counted, OwnReply;
      match m
      case AsynCallMove(id, cb, receiving) => if client == Ready { var _ := AsynCall(id, cb, receiving); }
      case CountMove => if client == Counting { Count(); }
      case CbMove => if client == Ready && chanAsynRet != [] { Cb(); }
      case CallMove(id, form, receiving) => if client == Ready { var _ := Call(id, form, receiving); }
      case ReceiveMove => if client.InCall? && chanSyncRet != [] { var _ := Receive(); }
    }

    method DoOther(m: Move)
      requires Inv() && OfOthers(m)
      modifies this
      ensures Inv() && State() == old(State()).After(m)
    {
      hide CountTo, Tokens, Ledger.Ok, System.Counted, OwnReply;
      match m
      case OtherMove(receiving) => OtherCall(receiving);
      case TakeMove => if serving == None && chanCall != [] { Take(); }
      case ExecMove(result) => if serving != None && !result.NotRun? { Exec(result); }
      case CloseMove => var _ := Close();
      case DrainMove => if closed && chanCall != [] { Drain(); }
    }
  }
}
