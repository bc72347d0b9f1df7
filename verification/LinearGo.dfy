/**
  Linear contexts, framework/go/leaf/go/go.go.

  Every submitted function gets its own goroutine, and the goroutines race for `mutexExecution`; which
  function a goroutine runs is decided only when it has won.  Each method is one atomic step of one
  goroutine, and a schedule is any sequence of steps.  Function number i is the i-th one submitted.
*/
module LinearGo {
  import opened Options

  /** Where a spawned goroutine stands. */
  datatype Stage =
    | Waiting                  // before mutexExecution.Lock()
    | Locked                   // before linearGo.Remove
    | Running(job: nat)        // in e.f()
    | Sending(job: nat)        // e.f() has returned or panicked
    | Unlocking                // the callback is in ChanCb
    | Ended

  predicate InSection(s: Stage) {
    s.Locked? || s.Running? || s.Sending? || s.Unlocking?
  }

  /** This goroutine has still to take a function off the list. */
  predicate Owed(s: Stage) {
    s.Waiting? || s.Locked?
  }

  function CountOwed(gs: seq<Stage>): nat {
    if gs == [] then 0 else (if Owed(gs[|gs| - 1]) then 1 else 0) + CountOwed(gs[..|gs| - 1])
  }

  lemma {:induction false} CountUpdate(gs: seq<Stage>, g: nat, s: Stage)
    requires g < |gs|
    ensures CountOwed(gs[g := s]) == CountOwed(gs) - (if Owed(gs[g]) then 1 else 0) + (if Owed(s) then 1 else 0)
  {
    var n := |gs| - 1;
    if g < n {
      assert gs[g := s][..n] == gs[..n][g := s];
      CountUpdate(gs[..n], g, s);
    } else {
      assert gs[g := s][..n] == gs[..n];
    }
  }

  lemma CountSpawn(gs: seq<Stage>)
    ensures CountOwed(gs + [Waiting]) == CountOwed(gs) + 1
  {
    assert (gs + [Waiting])[..|gs|] == gs;
  }

  lemma {:induction false} CountPositive(gs: seq<Stage>, g: nat)
    requires g < |gs| && Owed(gs[g])
    ensures CountOwed(gs) > 0
  {
    if g < |gs| - 1 {
      CountPositive(gs[..|gs| - 1], g);
    }
  }

  /** A goroutine that still owes a removal exists when the count says so. */
  lemma {:induction false} SomeOwed(gs: seq<Stage>) returns (g: nat)
    requires CountOwed(gs) > 0
    ensures g < |gs| && Owed(gs[g])
  {
    var n := |gs| - 1;
    if Owed(gs[n]) {
      g := n;
    } else {
      g := SomeOwed(gs[..n]);
    }
  }

  /** a, a + 1, ..., b - 1: submission order. */
  function From(a: nat, b: nat): (s: seq<nat>)
    requires a <= b
    ensures |s| == b - a && forall i :: 0 <= i < |s| ==> s[i] == a + i
  {
    seq(b - a, i requires 0 <= i => a + i)
  }

  /** One step of some goroutine; `g` picks the goroutine. */
  datatype Move = Push | Spawn | Lock(g: nat) | Remove(g: nat) | Finish(g: nat) | Send(g: nat,
      receiving: bool) | Unlock(g: nat) | Callback

  /** How many functions the steps submit. */
  function Pushes(moves: seq<Move>): nat {
    if moves == [] then 0
    else Pushes(moves[..|moves| - 1]) + if moves[|moves| - 1].Push? then 1 else 0
  }

  class LinearContext {
    const chanCap: nat
    var linearGo: seq<nat>
    var mutexExecution: Option<nat>
    var goroutines: seq<Stage>
    var chanCb: seq<nat>
    var pendingGo: int

    // submitters between the push and the go statement
    var unspawned: nat
    // functions submitted, started, returned, and whose callbacks were sent and run, in order
    var submitted: nat
    ghost var started: seq<nat>
    ghost var returned: seq<nat>
    ghost var sent: seq<nat>
    ghost var called: seq<nat>

    /** The function the holder of the lock has taken, if it is still to be run or its callback sent. */
    ghost function Stage(): Stage
      reads this
    {
      if mutexExecution.Some? && mutexExecution.value < |goroutines| then goroutines[mutexExecution.value] else Waiting
    }

    ghost predicate Exclusive()
      reads this
    {
      && (mutexExecution.Some? ==> mutexExecution.value < |goroutines|)
      && forall g :: 0 <= g < |goroutines| ==> (InSection(goroutines[g]) <==> mutexExecution == Some(g))
    }

    /** The four logs are submission order, each behind the one before by at most what the lock holder is at. */
    ghost predicate InOrder()
      reads this
    {
      && |started| <= submitted
      && (Stage().Running? || Stage().Sending? ==> 0 < |started|)
      && started == From(0, |started|) && linearGo == From(|started|, submitted)
      && returned == From(0, |started| - if Stage().Running? then 1 else 0)
      && sent == From(0, |started| - if Stage().Running? || Stage().Sending? then 1 else 0)
      && (Stage().Running? || Stage().Sending? ==> Stage().job == |started| - 1)
      && sent == called + chanCb
    }

    ghost predicate Valid()
      reads this
    {
      && Exclusive()
      && InOrder()
      && CountOwed(goroutines) + unspawned == |linearGo|
      && pendingGo == submitted - |called|
      && |chanCb| <= chanCap
    }

    constructor (chanCap: nat)
      ensures Valid() && submitted == 0 && unspawned == 0
    {
      this.chanCap := chanCap;
      linearGo, mutexExecution, goroutines, chanCb, pendingGo := [], None, [], [], 0;
      unspawned, submitted := 0, 0;
      started, returned, sent, called := [], [], [], [];
    }

    /** LinearContext.Go up to the go statement. */
    method Push()
      requires Valid()
      modifies this`pendingGo, this`linearGo, this`unspawned, this`submitted
      ensures Valid() && submitted == old(submitted) + 1 && unspawned == old(unspawned) + 1
    {
      hide CountOwed;
      pendingGo := pendingGo + 1;
      linearGo := linearGo + [submitted];
      unspawned := unspawned + 1;
      submitted := submitted + 1;
    }

    /** The go statement. */
    method Spawn()
      requires Valid() && unspawned > 0
      modifies this`goroutines, this`unspawned
      ensures Valid() && goroutines == old(goroutines) + [Waiting] && unspawned == old(unspawned) - 1
    {
      hide CountOwed;
      CountSpawn(goroutines);
      goroutines := goroutines + [Waiting];
      unspawned := unspawned - 1;
    }

    /** A waiting goroutine gets the free execution lock. */
    method Lock(g: nat)
      requires Valid() && g < |goroutines| && goroutines[g] == Waiting && mutexExecution == None
      modifies this`goroutines, this`mutexExecution
      ensures Valid() && goroutines == old(goroutines)[g := Locked] && mutexExecution == Some(g)
    {
      hide CountOwed;
      CountUpdate(goroutines, g, Locked);
      goroutines := goroutines[g := Locked];
      mutexExecution := Some(g);
    }

    /** linearGo.Remove(linearGo.Front()): there is a front, and it is the next function in submission order. */
    method Remove(g: nat)
      requires Valid() && g < |goroutines| && goroutines[g] == Locked
      modifies this`goroutines, this`linearGo, this`started
      ensures Valid() && old(linearGo) != []
      ensures goroutines == old(goroutines)[g := Running(old(|started|))] && started == old(started) + [old(|started|)]
    {
      hide CountOwed;
      CountPositive(goroutines, g);
      assert linearGo != [];
      var e := linearGo[0];
      CountUpdate(goroutines, g, Running(e));
      linearGo := linearGo[1..];
      goroutines := goroutines[g := Running(e)];
      started := started + [e];
    }

    /** e.f() returns, or panics and the deferred function takes over. */
    method Finish(g: nat)
      requires Valid() && g < |goroutines| && goroutines[g].Running?
      modifies this`goroutines, this`returned
      ensures Valid() && goroutines == old(goroutines)[g := Sending(old(goroutines)[g].job)]
      ensures returned == old(returned) + [old(goroutines)[g].job]
    {
      hide CountOwed;
      var e := goroutines[g].job;
      CountUpdate(goroutines, g, Sending(e));
      goroutines := goroutines[g := Sending(e)];
      returned := returned + [e];
    }

    /** A send to ChanCb can proceed. */
    predicate CanSend(receiving: bool)
      reads this
    {
      |chanCb| < chanCap || (chanCap == 0 && receiving)
    }

    /** g.ChanCb <- e.cb, with the execution lock still held; an unbuffered channel hands the callback over. */
    method Send(g: nat, receiving: bool)
      requires Valid() && g < |goroutines| && goroutines[g].Sending? && CanSend(receiving)
      modifies this`goroutines, this`chanCb, this`sent, this`called, this`pendingGo
      ensures Valid() && goroutines == old(goroutines)[g := Unlocking]
      ensures sent == old(sent) + [old(goroutines)[g].job]
      ensures pendingGo <= old(pendingGo)
    {
      hide CountOwed;
      var e := goroutines[g].job;
      CountUpdate(goroutines, g, Unlocking);
      goroutines := goroutines[g := Unlocking];
      sent := sent + [e];
      if |chanCb| < chanCap {
        chanCb := chanCb + [e];
      } else {
        called := called + [e];
        pendingGo := pendingGo - 1;
      }
    }

    /** The deferred mutexExecution.Unlock(). */
    method Unlock(g: nat)
      requires Valid() && g < |goroutines| && goroutines[g] == Unlocking
      modifies this`goroutines, this`mutexExecution
      ensures Valid() && goroutines == old(goroutines)[g := Ended] && mutexExecution == None
    {
      hide CountOwed;
      CountUpdate(goroutines, g, Ended);
      goroutines := goroutines[g := Ended];
      mutexExecution := None;
    }

    /** Go.Cb(<-ChanCb). */
    method Callback()
      requires Valid() && chanCb != []
      modifies this`chanCb, this`called, this`pendingGo
      ensures Valid() && called == old(called) + [old(chanCb)[0]]
      ensures pendingGo == old(pendingGo) - 1
    {
      hide CountOwed;
      called := called + [chanCb[0]];
      chanCb := chanCb[1..];
      pendingGo := pendingGo - 1;
    }

    /** An enabled step is taken; one that is not leaves everything as it is. */
    method Do(m: Move)
      requires Valid()
      modifies this
      ensures Valid()
      ensures submitted == old(submitted) + if m.Push? then 1 else 0
      ensures m.Spawn? && old(unspawned) > 0 ==> goroutines == old(goroutines) + [Waiting]
      ensures m.Lock? && m.g < old(|goroutines|) && old(goroutines)[m.g] == Waiting && old(mutexExecution) == None ==>
        mutexExecution == Some(m.g)
      ensures m.Remove? && m.g < old(|goroutines|) && old(goroutines)[m.g] == Locked ==> |started| == old(|started|) + 1
      ensures m.Finish? && m.g < old(|goroutines|) && old(goroutines)[m.g].Running? ==>
          |returned| == old(|returned|) + 1
      ensures m.Send? && m.g < old(|goroutines|) && old(goroutines)[m.g].Sending? && old(CanSend(m.receiving)) ==>
        |sent| == old(|sent|) + 1
      ensures m.Unlock? && m.g < old(|goroutines|) && old(goroutines)[m.g] == Unlocking ==> mutexExecution == None
      ensures m.Callback? && old(chanCb) != [] ==> |called| == old(|called|) + 1
    {
      hide CountOwed, LinearContext.InOrder, LinearContext.Exclusive;
      match m
      case Push => Push();
      case Spawn => if unspawned > 0 { Spawn(); }
      case Lock(g) => if g < |goroutines| && goroutines[g] == Waiting && mutexExecution == None { Lock(g); }
      case Remove(g) => if g < |goroutines| && goroutines[g] == Locked { Remove(g); }
      case Finish(g) => if g < |goroutines| && goroutines[g].Running? { Finish(g); }
      case Send(g, receiving) =>
        if g < |goroutines| && goroutines[g].Sending? && CanSend(receiving) { Send(g, receiving); }
      case Unlock(g) => if g < |goroutines| && goroutines[g] == Unlocking { Unlock(g); }
      case Callback => if chanCb != [] { Callback(); }
    }

    /**
      Under every schedule functions start, end and have their callbacks sent and run in submission order, and
      a function starts only after the one before it has ended.
    */
    method Run(moves: seq<Move>)
      requires Valid()
      modifies this
      ensures Valid()
      ensures submitted == old(submitted) + Pushes(moves)
      ensures |called| <= |sent| <= |returned| <= |started| <= |returned| + 1 && |started| <= submitted
      ensures started == From(0, |started|) && returned == From(0, |returned|)
      ensures sent == From(0, |sent|) && called == From(0, |called|)
    {
      for i := 0 to |moves|
        invariant Valid() && submitted == old(submitted) + Pushes(moves[..i])
      {
        assert moves[..i + 1][..i] == moves[..i];
        Do(moves[i]);
      }
      assert moves[..|moves|] == moves;
      assert forall i :: 0 <= i < |called| ==> called[i] == sent[i];
      assert called == From(0, |called|);
    }

    /** Steps the goroutines still have to take. */
    ghost function Work(): int
      reads this
    {
      5 * CountOwed(goroutines) +
      match Stage()
      case Waiting => 0
      case Locked => -1
      case Running(_) => 3
      case Sending(_) => 2
      case Unlocking => 1
      case Ended => 0
    }

    /** Goroutine `g` can step; the number past the last one stands for the owner, who can run a callback. */
    predicate CanStep(g: nat)
      requires g <= |goroutines|
      reads this
    {
      if g == |goroutines| then chanCb != []
      else
        match goroutines[g]
        case Waiting => mutexExecution == None
        case Sending(_) => CanSend(true)
        case Ended => false
        case _ => true
    }

    /** While a callback is outstanding and no submission is half made, somebody can step. */
    lemma SomeStep() returns (g: nat)
      requires Valid() && pendingGo > 0 && unspawned == 0
      ensures g <= |goroutines| && CanStep(g)
    {
      hide CountOwed;
      if chanCb != [] {
        g := |goroutines|;
      } else if mutexExecution == None {
        g := SomeOwed(goroutines);
        assert !InSection(goroutines[g]);
      } else {
        g := mutexExecution.value;
        assert InSection(goroutines[g]);
      }
    }

    /** A step of any goroutine brings the end nearer. */
    method StepOf(g: nat)
      requires Valid() && g <= |goroutines| && CanStep(g)
      modifies this`goroutines, this`mutexExecution, this`linearGo, this`chanCb, this`pendingGo,
               this`started, this`returned, this`sent, this`called
      ensures Valid() && Work() + pendingGo < old(Work() + pendingGo)
    {
      hide CountOwed;
      if g == |goroutines| {
        Callback();
      } else {
        assert InSection(goroutines[g]) ==> mutexExecution == Some(g);
        match goroutines[g] {
          case Waiting => CountUpdate(goroutines, g, Locked); Lock(g);
          case Locked => CountUpdate(goroutines, g, Running(|started|)); Remove(g);
          case Running(e) => CountUpdate(goroutines, g, Sending(e)); Finish(g);
          case Sending(_) => CountUpdate(goroutines, g, Unlocking); Send(g, true);
          case Unlocking => CountUpdate(goroutines, g, Ended); Unlock(g);
        }
      }
    }

    /**
      Go.Close with no submission half made, under every schedule: each round is a step of any goroutine that can
      step, the owner included.  It ends, and every callback has run, in submission order.
    */
    method Close()
      requires Valid() && unspawned == 0
      modifies this`goroutines, this`mutexExecution, this`linearGo, this`chanCb, this`pendingGo,
               this`started, this`returned, this`sent, this`called
      ensures Valid() && pendingGo == 0 && called == From(0, submitted)
    {
      hide CountOwed;
      WorkIsNatural();
      while pendingGo > 0
        invariant Valid() && Work() >= 0
        decreases Work() + pendingGo
      {
        var some := SomeStep();
        assert CanStep(some);
        var g: nat :| g <= |goroutines| && CanStep(g);
        StepOf(g);
        WorkIsNatural();
      }
    }

    lemma WorkIsNatural()
      requires Valid()
      ensures Work() >= 0
    {
      if Stage().Locked? {
        CountPositive(goroutines, mutexExecution.value);
      }
    }
  }
}
