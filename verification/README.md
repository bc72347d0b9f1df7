# Models of the repository's schedulers and data structures

The repository collects small C, C++ and Go cores whose purpose can be said in a sentence and whose code is
hard. This project models nine of them in Dafny and proves what each is for.

| component | files | main results |
|---|---|---|
| hierarchical timing wheel | `TimerFlat`, `TimerWheel` | five levels, 32-bit wrapping time and cascades refine a flat set of pending nodes; a node left alone fires exactly once, on time (`FiresExactlyOnceOnTime`, `PendingNodeFires`) |
| periodic events | `TimerEvents` | every callback of an event runs in the first tick at or after its due time; `repeat = n` gives n callbacks (`PeriodicGuarantee`) |
| red-black tree | `RbShape`, `RbMemory`, `RbTree`, `RbMap` | pointer-level insert, erase and replace keep the red-black rules and the in-order sequence; the search macros and iteration are those of a sorted map |
| deadlock detector | `WaitGraph`, `DeadLock`, `LockProtocol` | the removal algorithm finds exactly the cycles; no real deadlock is missed in any interleaving; exactly when an alarm is true |
| libco shared stacks | `SharedStack` | a coroutine that continues finds on its stack the bytes it left, whoever used the stack since |
| libco timeouts | `CoTimeout` | over any number of turns no timeout is early, none due is left behind, no item is lost, for any horizon; events, timings and signals of each turn take effect in it; a signal can be lost |
| cron expressions | `Calendar`, `Cron`, `CronField` | skip-ahead search equals brute-force search; a field's mask is what its text selects exactly if no increment wraps around |
| sampling | `RandSample` | the map-backed shuffle is a bijection from random choices to sequences of distinct values |
| async log, channel RPC, linear goroutines, heap timer | `AsyncLog`, `ChanRpc`, `LinearGo`, `MinHeap` | conservation and order over every interleaving; exactly-once callbacks; in-order firing |

State that the source updates in place is a class with those fields, and each of its methods is proved against a
specification function, a ghost history or an invariant over such a history. Concurrency is a step system: every
method is one atomic step and a run is an arbitrary sequence of steps. User callbacks are arbitrary finite
scripts of operations, chosen by the caller of the model. Memory of linked structures is a map from addresses to
cells with 0 for NULL.

Four properties one might expect turned out not to hold of the code. Each has a concrete run or input, and the
condition under which the property does hold:

* The deadlock detector can report a deadlock that does not exist, because the unlock hook runs after the real
  unlock (`LockProtocol.FalseAlarm`). A thread on a recorded cycle is really deadlocked if and only if every lock
  asked for around that cycle has a recorded count greater than the number of its unlock hooks still to come
  (`LockProtocol.AlarmIsTrue`).
* A condition-variable signal of libco can be lost when its item had been taken early from the wheel
  (`CoTimeout.SignalLost`). An item signalled during a round, and not touched afterwards, is processed in that round
  if and only if it was not both marked as timed out and early at the moment of the signal
  (`CoTimeout.EventLoop.Round`).
* A cron increment close to the largest int makes the parsing loop wrap around and set bits below the start of the
  range (`CronField.WrapAroundExample`). A part sets exactly what it selects if and only if
  `start + 2 * incr < 2^64` (`CronField.SetsIsSelects`).
* Stopping the async log does not drain it (`AsyncLog.StopLosesLine`). Without an overflowing batch the file is
  complete, once the consumer has left, if and only if the schedule appends no non-empty line that fits in a buffer
  after its last exchange (`AsyncLog.AsyncLogging.Run`).

## Model

| member | source | states |
|---|---|---|
| `TimerFlat.FiresExactlyOnceOnTime` | timer/timewheel/itimer/itimer.c:176-270 | over every legal run, a pending node left alone is called back exactly once, in the iteration numbered by its deadline, and not before |
| `TimerFlat.AddedNodeFiresOnTime` | timer/timewheel/itimer/itimer.c:125-140 | from the add on, in 32-bit terms: with expires - timer_jiffies below 2^31 (mod 2^32) the callback comes in the iteration whose timer_jiffies equals expires, otherwise in the next one |
| `TimerFlat.LeftAloneNode` | timer/timewheel/itimer/itimer.c:231-270 | before its deadline a node stays pending, in the iteration of its deadline it is queued or has fired once, afterwards it is gone |
| `WheelPlacement.PlaceForIsPlaced` | timer/timewheel/itimer/itimer.c:176-208 | the slot the code chooses satisfies the placement invariant with its next cascade strictly ahead, and nearer deadlines go to lower levels |
| `WheelPlacement.CascadeChain` | timer/timewheel/itimer/itimer.c:237-254 | the chain of index tests cascades a level exactly when the clock is a multiple of that level's granularity |
| `WheelPlacement.AnchorIsSlot` | timer/timewheel/itimer/itimer.c:233-250 | the nodes whose cascade is now are exactly those in the slot that is emptied |
| `WheelPlacement.SlotOfWrapped` | timer/timewheel/itimer/itimer.c:183-203 | slots computed from wrapped 32-bit times are those of the unbounded times |
| `WheelPlacement.DueOrLater` | timer/timewheel/itimer/itimer.c:255-256 | with all cascades ahead, slot clock mod 256 of the first level holds exactly the nodes due now |
| `WheelLists.PutBack` | timer/timewheel/itimer/itimer.c:219-224 | a cascaded node goes to a strictly lower level with its cascade strictly ahead |
| `WheelLists.TakeOff` | timer/timewheel/itimer/itimer.c:214-218 | splicing a cascaded slot takes off exactly the nodes of that level whose cascade is now |
| `WheelLists.TickTakesDue` | timer/timewheel/itimer/itimer.c:255-256 | the spliced first-level slot holds exactly the due nodes and the rest is consistent one tick later |
| `TimerWheel.Core.constructor` | timer/timewheel/itimer/itimer.c:28-51 | an empty consistent wheel at the given time |
| `TimerWheel.Core.InternalAdd` | timer/timewheel/itimer/itimer.c:176-208 | links the node once, in the slot of its deadline, keeping the wheel consistent |
| `TimerWheel.Core.NodeAdd` | timer/timewheel/itimer/itimer.c:125-140 | refines the flat add; a destroyed node is left alone |
| `TimerWheel.Core.NodeDel` | timer/timewheel/itimer/itimer.c:146-159 | refines the flat delete, with the three return values |
| `TimerWheel.Core.NodeMod` | timer/timewheel/itimer/itimer.c:165-170 | refines delete followed by add |
| `TimerWheel.Core.NodeDestroy` | timer/timewheel/itimer/itimer.c:104-119 | the node leaves the wheel and counts as destroyed, so that later adds and deletes leave the wheel alone |
| `TimerWheel.Core.Cascade` | timer/timewheel/itimer/itimer.c:214-225 | every node of the slot moves to a strictly lower level, no other node moves, none is lost or duplicated |
| `TimerWheel.Core.CascadeAll` | timer/timewheel/itimer/itimer.c:237-254 | after the cascades of an iteration every pending cascade is strictly ahead |
| `TimerWheel.Core.StartIteration` | timer/timewheel/itimer/itimer.c:236-256 | refines the flat tick: exactly the nodes due are queued to fire |
| `TimerWheel.Core.FireQueued` | timer/timewheel/itimer/itimer.c:257-267 | the queued nodes are called back one by one, the k-th callback ever made doing exactly what its script says |
| `TimerWheel.Core.Callback` | timer/timewheel/itimer/itimer.c:266 | a callback that adds, deletes, modifies and destroys any nodes does to the wheel what those operations do to the flat state, one after the other |
| `TimerWheel.Core.Update` | timer/timewheel/itimer/itimer.c:231-270 | one iteration for every time up to and including the argument, none for a past one; the whole call is a flat run of iteration starts and complete callbacks |
| `TimerWheel.Core.PendingNodeFires` | timer/timewheel/itimer/itimer.c:231-270 | over the whole life of the core: a node pending at some moment and untouched since is still pending until its deadline and has fired exactly once, on time, after it |
| `EventTimes.WaitIsNotLate` | timer/timewheel/itimer/itimer.c:341-344 | the wait in ticks, clamped or not, ends no later than the first tick at or after slap |
| `EventTimes.ReachedIsDue` | timer/timewheel/itimer/itimer.c:329-339 | a due time is among those counted up to a tick if and only if it is not after the tick |
| `TimerEvents.Mgr.constructor` | timer/timewheel/itimer/itimer.c:281-288 | a manager without events |
| `TimerEvents.Mgr.EvtStart` | timer/timewheel/itimer/itimer.c:389-405 | the event is attached with a new history and its node pending |
| `TimerEvents.Mgr.EvtStop` | timer/timewheel/itimer/itimer.c:408-415 | the event is detached and its node off the wheel; its history says that it was stopped if it still had callbacks to come |
| `TimerEvents.Mgr.CatchUp` | timer/timewheel/itimer/itimer.c:329-339 | slap passes current, one period and one repetition for each callback due; stops exactly when the count is used up |
| `TimerEvents.Mgr.Settle` | timer/timewheel/itimer/itimer.c:329-348 | after catching up the event is scheduled again or off the wheel for good, with its history going on and exactly the callbacks due still to be made |
| `TimerEvents.Mgr.UserCallback` | timer/timewheel/itimer/itimer.c:348-356 | an event whose last operation in the callback is a stop is off, one whose last is a start has a new history from current with that period and count, and one not named is as it was |
| `TimerEvents.Mgr.MakeCalls` | timer/timewheel/itimer/itimer.c:348-356 | all callbacks due are made, in this tick, unless one of them names the event; every event is left as the last operation on it in all callbacks made says, and unchanged if not named |
| `TimerEvents.Mgr.EvtCb` | timer/timewheel/itimer/itimer.c:321-357 | keeps every event punctual and scheduled, whatever the user callbacks do; every event they do not name goes on with the same start, period and count, and the callbacks it gains are made at the current time |
| `TimerEvents.Mgr.RunTick` | timer/timewheel/itimer/itimer.c:312-317 | one tick: one core iteration, then the three clocks advance; an event that no callback names goes on, and the callbacks it gains are all made at this tick's time |
| `TimerEvents.Mgr.Run` | timer/timewheel/itimer/itimer.c:301-318 | with d the distance from millisec to the argument modulo 2^32, the run makes d / interval + 1 ticks and leaves millisec that many intervals later (none if the argument is behind by up to 300000 + 64 * interval), and outside this window jumps, makes one tick and leaves millisec one interval past the argument; an event that no callback names keeps its start, period and count, is not stopped, and the callbacks it gains are made at the times of these ticks |
| `TimerEvents.PollsAddUp` | timer/timewheel/itimer/itimer.c:301-318 | two polls within the window make together the ticks of the second alone, and a second poll at the same time makes none |
| `TimerEvents.Mgr.PeriodicGuarantee` | timer/timewheel/itimer/itimer.c:301-405 | the k-th callback ran in the first tick whose current is at least start + k * period, and in a tick that has been run; unless the user stopped the event exactly as many callbacks have been made as due times have been reached by the last tick, or as its repeat count allows, and it is on the wheel exactly until the last of them |
| `TimerEvents.CountedCalls` | timer/timewheel/itimer/itimer.c:329-339 | from punctual callbacks that are not in the future, the number of callbacks is exactly the number of due times reached, or the repeat count if that is smaller |
| `RbShape.InsertRecolour` | demo/C/rbtree/rbtree.c:72-135 | recolouring a red uncle moves the only violation two levels up |
| `RbShape.InsertRotate` | demo/C/rbtree/rbtree.c:72-135 | with a black uncle the rotation at the grandparent restores all red-black rules |
| `RbShape.EraseRecolour` | demo/C/rbtree/rbtree.c:138-221 | with a black sibling and black nephews the missing black moves one level up |
| `RbShape.EraseRotate` | demo/C/rbtree/rbtree.c:138-221 | with a red far nephew the rotation at the parent makes up for the missing black |
| `RbShape.EraseSuccessor` | demo/C/rbtree/rbtree.c:224-293 | a node with two children is replaced by its in-order successor, leaving at most one missing black at the successor's old place |
| `RbMemory.RotationRep` | demo/C/rbtree/rbtree.c:26-70 | the pointer writes of a rotation represent the rotated tree, parent links included, with the same in-order sequence |
| `RbTree.Root.RotateLeft` | demo/C/rbtree/rbtree.c:26-47 | memory represents the tree rotated left at the node; in-order sequence unchanged |
| `RbTree.Root.RotateRight` | demo/C/rbtree/rbtree.c:49-70 | the mirror image |
| `RbTree.Root.InsertRound` | demo/C/rbtree/rbtree.c:76-132 | one round leaves the violation exactly two levels higher, or ends the repair with a black parent above it |
| `RbTree.Root.InsertColor` | demo/C/rbtree/rbtree.c:72-135 | after a red leaf was linked: root black, no red-red edge, equal black heights, consistent links, same in-order sequence; terminates |
| `RbTree.Root.EraseRound` | demo/C/rbtree/rbtree.c:138-219 | one round moves the missing black exactly one level up, or to a red node where it can be made up for, or ends the repair |
| `RbTree.Root.EraseColor` | demo/C/rbtree/rbtree.c:138-221 | the missing black is made up for and the in-order sequence unchanged; terminates |
| `RbTree.Root.GiveWay` | demo/C/rbtree/rbtree.c:224-293 | the in-order successor is cut out and takes the place, colour and links of the erased node |
| `RbTree.Root.Erase` | demo/C/rbtree/rbtree.c:224-293 | a red-black tree becomes a red-black tree holding, in order, all nodes but the erased one |
| `RbTree.Root.ReplaceNode` | demo/C/rbtree/rbtree.c:375-394 | the new node stands where the victim stood in the in-order sequence, and the tree is red-black if and only if it was |
| `RbMap.Index.Search` | demo/C/rbtree/rbtree.h:191-207 | the node with the key, NULL exactly if there is none |
| `RbMap.Index.Insert` | demo/C/rbtree/rbtree.h:168-189 | refused exactly if the key is taken; otherwise the sorted sequence gains exactly the node |
| `RbMap.Index.SearchOrInsert` | demo/C/rbtree/rbtree.h:209-232 | the node with the key, a new one exactly if there was none |
| `RbMap.Index.DeleteNode` | demo/C/rbtree/rbtree.h:235-239 | exactly that node leaves the sequence; NULL does nothing |
| `RbMap.Index.Delete` | demo/C/rbtree/rbtree.h:241-245 | the node with the key, if any, leaves the sequence and nothing else |
| `RbMap.Index.LinkAndColor` | demo/C/rbtree/rbtree.h:156-163 | linking at the place where a search ended and recolouring inserts the node in key order |
| `RbMap.Index.Edge` | demo/C/rbtree/rbtree.c:295-319 | the first or last node in key order, NULL for an empty tree |
| `RbMap.Index.Neighbour` | demo/C/rbtree/rbtree.c:321-373 | the next or previous node in key order, NULL at the end |
| `RbMap.Index.Traverse` | demo/C/rbtree/rbtree.c:295-348 | rb_first and repeated rb_next visit every node once, in key order |
| `WaitGraph.WaitedForIsCycle` | tools/dead_lock_sample/dead_lock_stub_C++v2.h:405-423 | in a graph of out-degree at most one, a set whose members are all waited for from within consists of vertices on cycles |
| `WaitGraph.CycleStays` | tools/dead_lock_sample/dead_lock_stub_C++v2.h:392-420 | removing vertices of indegree zero never removes one on a cycle |
| `DeadLockGraph.RemoveFirst` | tools/dead_lock_sample/dead_lock_stub_C++v2.h:406-420 | each step of the removal keeps the indegrees, the queue and the removal order right |
| `DeadLockGraph.LeftIsOnCycle` | tools/dead_lock_sample/dead_lock_stub_C++v2.h:422-427 | at the end the vertices left are exactly those on a cycle |
| `DeadLockGraph.DeadLockGraphic.LockBefore` | tools/dead_lock_sample/dead_lock_stub_C++v2.h:250-261 | the request is recorded as valid |
| `DeadLockGraph.DeadLockGraphic.LockAfter` | tools/dead_lock_sample/dead_lock_stub_C++v2.h:263-281 | the request is void, the thread owner, the count one higher |
| `DeadLockGraph.UnlockUndoesLock` | tools/dead_lock_sample/dead_lock_stub_C++v2.h:263-294 | whatever happened to other locks since, the unlock hook takes back what the lock hook of the same lock counted, leaves the thread on record and no other lock changed |
| `DeadLockGraph.DeadLockGraphic.BuildGraph` | tools/dead_lock_sample/dead_lock_stub_C++v2.h:359-390 | edges and indegrees are those of the recorded wait-for graph |
| `DeadLockGraph.DeadLockGraphic.CheckDeadLock` | tools/dead_lock_sample/dead_lock_stub_C++v2.h:355-432 | a deadlock is reported if and only if the recorded graph has a cycle, and the vertices left with non-zero indegress are exactly those on a cycle |
| `LockProtocol.InvAlways` | tools/dead_lock_sample/dead_lock_stub_C++v2.h:483-495 | in every interleaving of the hooks and the real operations a holder whose hook has run is the recorded owner, with the count accounting for every hook still to come |
| `LockProtocol.NoMissedDeadlock` | tools/dead_lock_sample/dead_lock_stub_C++v2.h:250-390 | in every reachable state every thread on a real cycle of blocked threads is among those the check leaves over |
| `LockProtocol.EdgeIsTrue` | tools/dead_lock_sample/dead_lock_stub_C++v2.h:283-294 | the count of the lock asked for exceeds its unlock hooks to come if and only if the recorded edge is real and the owner has run the hook after its acquisition |
| `LockProtocol.AlarmIsTrue` | tools/dead_lock_sample/dead_lock_stub_C++v2.h:355-432 | in every reachable state a thread on a recorded cycle is really deadlocked if and only if every lock asked for around that cycle has more hooks counted than are still to come |
| `LockProtocol.NoFalseAlarm` | tools/dead_lock_sample/dead_lock_stub_C++v2.h:490-495 | in every reachable state with no unlock hook to come, recorded cycles are exactly the real ones |
| `LockProtocol.FalseAlarm` | tools/dead_lock_sample/dead_lock_stub_C++v2.h:490-495 | a concrete run after which a cycle is recorded, a thread on it can go on, and nobody is deadlocked |
| `SharedStack.Env.Resume` | framework/libco_pool/co_routine.cpp:581-594 | a coroutine that ran before finds on its stack exactly the bytes it left; everyone else's bytes stay safe, and only its start mark changes |
| `SharedStack.Env.Yield` | framework/libco_pool/co_routine.cpp:595-604 | the resumer finds exactly the bytes it left |
| `SharedStack.Env.Swap` | framework/libco_pool/co_routine.cpp:633-678 | the incoming coroutine's live bytes are those it left at its last switch-out |
| `SharedStack.SavedComesBack` | framework/libco_pool/co_routine.cpp:616-677 | what was copied out, copied back over any later contents of the stack memory, gives the same live bytes and leaves the rest of the memory alone |
| `SharedStack.Env.Release` | framework/libco_pool/co_routine.cpp:537-571 | the save buffer goes, nobody refers to the coroutine, no stack memory changes and all others keep their bytes |
| `SharedStack.Env.Finish` | framework/libco_pool/co_routine.cpp:447-464 | the coroutine is marked as ended, its last bytes are on record as those of any other, and its resumer continues with its own bytes |
| `SharedStack.Env.Do` | framework/libco_pool/co_routine.cpp:537-678 | one operation: who exists, is started, ended and on the call stack, the sizes of the stacks, and the bytes really on the stacks when somebody leaves or continues |
| `SharedStack.Env.Run` | framework/libco_pool/co_routine.cpp:537-678 | in every sequence of operations the log is, event by event, that of coroutines with stacks of their own: who leaves, with the bytes it has just written, and who continues; and whoever continues does so with the bytes of its own last switch-out |
| `SharedStack.AsExpected` | framework/libco_pool/co_routine.cpp:581-604 | the events of a switch are those of coroutines with stacks of their own |
| `SharedStack.TakeStack` | framework/libco_pool/co_routine.cpp:646-659 | taking over a stack copies out its occupant, so that everyone's bytes are still somewhere |
| `SharedStack.PutBack` | framework/libco_pool/co_routine.cpp:665-677 | copying the save buffer back gives the bytes left and touches nobody else's |
| `CoTimeout.Wheel.constructor` | framework/libco_pool/co_routine.cpp:364-375 | an empty wheel |
| `CoTimeout.Wheel.AddTimeout` | framework/libco_pool/co_routine.cpp:381-415 | refused exactly if the clock is behind the wheel or the time is past; otherwise linked once, in a slot no later than its time |
| `CoTimeout.Wheel.TakeAllTimeout` | framework/libco_pool/co_routine.cpp:416-446 | everything due is taken, what is taken leaves the wheel, nothing that stays is due, for any clock advance below 2^31 ms |
| `CoTimeout.EventLoop.Activate` | framework/libco_pool/co_routine.cpp:1119-1131 | the item is off the wheel and active, with its mark as it was, and no other item is affected |
| `CoTimeout.EventLoop.TakeActive` | framework/libco_pool/co_routine.cpp:837-858 | the first active item goes back on the wheel exactly if it is marked and early, otherwise it is processed |
| `CoTimeout.EventLoop.Collect` | framework/libco_pool/co_routine.cpp:803-835 | items with events and those already active are active and unmarked, those the wheel gives up join them marked, none lost |
| `CoTimeout.EventLoop.Perform` | framework/libco_pool/co_routine.cpp:1119-1131 | an operation changes its item as it says (times it if on no list, takes it off, or makes it active with its mark as it was) and no other; all promises made so far are kept and the operation makes one |
| `CoTimeout.EventLoop.Round` | framework/libco_pool/co_routine.cpp:801-858 | no timeout is processed before its time, no item on the wheel is due afterwards; a timed item left alone is on the wheel and not due or was processed once, as a timeout, and one that is nowhere stays so; an item active before or with an event is processed once, as a wakeup; every operation the processed items script is on the trail with its effect and what it promises, and an item signalled during the round is processed once if and only if it was not both marked and early at the signal |
| `CoTimeout.EventLoop.TurnOnce` | framework/libco_pool/co_routine.cpp:801-867 | a round and the function called at its end: the operations on record are those of the coroutines resumed, one script for each event, followed by those of the function; an item with an event or active before is processed exactly once unless it is named, an item that nobody touches is processed if its time has come and stays on the wheel otherwise, and every operation has its effect until the item is named again |
| `CoTimeout.ReadyWakes` | framework/libco_pool/co_routine.cpp:810-855 | an item with an event, or active before the turn, is processed exactly once in the turn, as a wakeup, and is then on no list, if nothing names it |
| `CoTimeout.TimedStays` | framework/libco_pool/co_routine.cpp:381-415 | an item on no list that is timed in a turn is on the wheel for that time at its end, and not processed meanwhile, if not named later |
| `CoTimeout.FirstNamed` | framework/libco_pool/co_routine.cpp:801-858 | an item on no list before the turn and without an event is so when it is first named, and not processed before |
| `CoTimeout.SignalWakes` | framework/libco_pool/co_routine.cpp:859-866 | an item last signalled by the function at the end of a turn is active for the next turn; one last signalled by a coroutine is processed in the turn exactly if it was not both marked and early |
| `CoTimeout.RemovedStays` | framework/libco_pool/co_routine.cpp:155-192 | an item whose last operation in a turn takes it off its list is on none at the end, and not processed since |
| `CoTimeout.EventLoop.Run` | framework/libco_pool/co_routine.cpp:792-868 | over any sequence of turns each turn does its part (`TurnOnce`), and an item that is on the wheel for time e at any stage and that nobody touches from then on is processed exactly once, as a timeout, in the first turn at or after e, however far beyond the wheel's size; until then it is on the wheel for e, and afterwards it is not heard of again |
| `CoTimeout.WokenInTurn` | framework/libco_pool/co_routine.cpp:792-868 | in every run, an item with an event in turn i or active when it begins is processed once in turn i, unless it is named |
| `CoTimeout.TimedInTurn` | framework/libco_pool/co_routine.cpp:792-868 | in every run, an item on no list that is timed in turn i and left alone from then on is processed once, in the first later turn at or after its time |
| `CoTimeout.SignalLost` | framework/libco_pool/co_routine.cpp:1119-1131 | a concrete round in which the coroutine of one item signals another, which is put back on the wheel and not processed |
| `Calendar.BeforeIsEarlier` | framework/go/leaf/timer/cronexpr.go:190-268 | the field-by-field order of times is the order of their seconds |
| `Calendar.NextDateIsNext` | framework/go/leaf/timer/cronexpr.go:216-227 | the day after has the next day number |
| `Calendar.NextWeekday` | framework/go/leaf/timer/cronexpr.go:174-187 | the day after has the next weekday, Sunday following Saturday |
| `Calendar.KnownWeekdays` | framework/go/leaf/timer/cronexpr.go:174-187 | 1 January 1970 was a Thursday, 29 February 2000 a Tuesday, 31 December 1999 a Friday |
| `Calendar.KnownMonths` | framework/go/leaf/timer/cronexpr.go:216-227 | the lengths of the months, February's by the Gregorian leap-year rule |
| `Cron.FindMonth` | framework/go/leaf/timer/cronexpr.go:203-214 | skipping whole months passes over no match |
| `Cron.FindDay` | framework/go/leaf/timer/cronexpr.go:216-227 | skipping whole days passes over no match |
| `Cron.FindHour` | framework/go/leaf/timer/cronexpr.go:229-240 | skipping whole hours passes over no match |
| `Cron.FindMinute` | framework/go/leaf/timer/cronexpr.go:242-253 | skipping whole minutes passes over no match |
| `Cron.FindSecond` | framework/go/leaf/timer/cronexpr.go:255-267 | skipping seconds passes over no match |
| `Cron.Next` | framework/go/leaf/timer/cronexpr.go:189-268 | the least whole-second instant strictly after the argument that matches all fields; none exactly if there is none through the end of the year after the starting one; terminates |
| `CronField.SplitJoin` | framework/go/leaf/timer/cronexpr.go:86-95 | splitting undoes joining parts without separators |
| `CronField.JoinSplit` | framework/go/leaf/timer/cronexpr.go:86-95 | joining the split parts gives the text back |
| `CronField.AtoiOfDecimal` | framework/go/leaf/timer/cronexpr.go:115-124 | reading undoes printing in decimal for every number that is an int, and larger ones are refused |
| `CronField.NotANumber` | framework/go/leaf/timer/cronexpr.go:115-124 | a text that is empty or has anything but signs and digits in it is not read as a number |
| `CronField.PieceRead` | framework/go/leaf/timer/cronexpr.go:73-159 | each of the six forms of a part, over decimal texts, is read as its bounds and increment, or refused with its error when out of order, out of range or with increment 0 |
| `CronField.PieceRefused` | framework/go/leaf/timer/cronexpr.go:86-159 | two slashes, two hyphens, a * with a hyphen and a bound or increment that is not a number are refused, the first four forms each with its error |
| `CronField.FieldRead` | framework/go/leaf/timer/cronexpr.go:79-172 | a field written as a list of parts is accepted exactly if all parts are right, and then selects the union of what they stand for |
| `CronField.AddPart` | framework/go/leaf/timer/cronexpr.go:161-168 | the bits set are exactly those the part selects and those its wrapped loop index reaches |
| `CronField.SetsIsSelects` | framework/go/leaf/timer/cronexpr.go:165-167 | a part sets exactly what it selects if and only if start + 2 * incr is below 2^64 |
| `CronField.ParseField` | framework/go/leaf/timer/cronexpr.go:79-172 | accepted if and only if every part is well formed and in range, with the first part's error otherwise; the mask is what the parts set, and what they select when no increment wraps; for a field written as a list of parts that mask is the union of what they stand for |
| `CronField.WrapAroundExample` | framework/go/leaf/timer/cronexpr.go:161-168 | the hour field 5/9223372036854775807 also sets hours 1 and 3 |
| `RandSample.RandIntervalN` | framework/go/leaf/util/rand.go:65-103 | the result is the sample drawn by the random choices from the interval, for every sequence of choices; equal bounds give that one value |
| `RandSample.SamplingIsBijective` | framework/go/leaf/util/rand.go:80-103 | samples are distinct values in range, different choices give different samples, and every sequence of distinct values in range is the sample of exactly one sequence of choices |
| `RandSample.SampleDetermines` | framework/go/leaf/util/rand.go:80-103 | equal samples come from equal choices |
| `AsyncLog.AsyncLogging.Append` | demo/C++/AsyncLog/AsyncLog.cpp:33-49 | a line shorter than a buffer is taken whole and in order, a longer one not at all |
| `AsyncLog.AsyncLogging.Exchange` | demo/C++/AsyncLog/AsyncLog.cpp:68-83 | everything buffered goes to the consumer in order; the batch is never empty |
| `AsyncLog.AsyncLogging.Trim` | demo/C++/AsyncLog/AsyncLog.cpp:85-95 | a batch of at most 25 buffers is untouched and nothing is written; of a larger one the first two stay, the file gains the notice, and the overflow is counted |
| `AsyncLog.AsyncLogging.WriteOne` | demo/C++/AsyncLog/AsyncLog.cpp:97-100 | the next buffer of the batch is appended to the file |
| `AsyncLog.AsyncLogging.Recycle` | demo/C++/AsyncLog/AsyncLog.cpp:102-121 | the two buffers needed are always there, so no assertion fails |
| `AsyncLog.AsyncLogging.Run` | demo/C++/AsyncLog/AsyncLog.cpp:33-124 | in every interleaving, without an overflowing batch, file, batch, buffers and current buffer in order are exactly the lines appended; no batch overflows if every exchange hands over at most 25 buffers; what is buffered is what was appended since the last exchange; after the consumer has left, the file is complete if and only if nothing was appended after that |
| `AsyncLog.SmallBatchesFit` | demo/C++/AsyncLog/AsyncLog.cpp:68-95 | for every schedule, if every exchange finds at most 25 buffers, nothing overflows |
| `AsyncLog.BufferedIsRecent` | demo/C++/AsyncLog/AsyncLog.cpp:33-81 | for every schedule, what the consumer has not taken is exactly what was appended since the last exchange |
| `AsyncLog.OutputIsAccounted` | demo/C++/AsyncLog/AsyncLog.cpp:97-100 | with nothing dropped the file holds the bytes taken, in order |
| `AsyncLog.StopLosesLine` | demo/C++/AsyncLog/AsyncLog.cpp:144-153 | a concrete run in which a line appended before the stop never reaches the file |
| `ChanRpc.AnsweredKeeps` | framework/go/leaf/chanrpc/chanrpc.go:83-135 | answering a call moves it from the server to its reply channel and changes no other call's story |
| `ChanRpc.AllCalledBack` | framework/go/leaf/chanrpc/chanrpc.go:322-388 | with no asynchronous call queued or in flight each has had exactly one callback |
| `ChanRpc.System.AsynCall` | framework/go/leaf/chanrpc/chanrpc.go:303-350 | a bad callback panics; with the channel's worth pending the callback runs at once; otherwise the call is at the server or its refusal queued, and the send never blocks |
| `ChanRpc.System.Cb` | framework/go/leaf/chanrpc/chanrpc.go:379-382 | one reply is delivered and pendingAsynCall falls by one, never below zero |
| `ChanRpc.System.Call` | framework/go/leaf/chanrpc/chanrpc.go:246-301 | a synchronous call is refused, sent or still blocked, each exactly under its condition |
| `ChanRpc.System.Receive` | framework/go/leaf/chanrpc/chanrpc.go:261-262 | the reply a synchronous call receives is its own and tells the truth about its function |
| `ChanRpc.System.Exec` | framework/go/leaf/chanrpc/chanrpc.go:99-135 | a function that returns or panics is on record with exactly that result, exactly one reply carrying it is appended to its caller's channel and to no other, and the reply never blocks |
| `ChanRpc.System.Drain` | framework/go/leaf/chanrpc/chanrpc.go:169-177 | a call left in a closed server gets exactly one reply with the closed error and is not run; the reply never blocks |
| `ChanRpc.System.CloseClient` | framework/go/leaf/chanrpc/chanrpc.go:384-388 | with any finite number of steps of the others, calls of their own included, before each step towards the next callback, closing ends and every AsynCall has had exactly one callback |
| `ChanRpc.ClosingStep` | framework/go/leaf/chanrpc/chanrpc.go:384-388 | while the client closes no step of anybody, calls by others included, adds to what is left to do, and each callback, and each step of the server towards a call still owed, takes from it |
| `ChanRpc.ClosingEnds` | framework/go/leaf/chanrpc/chanrpc.go:384-388 | under every schedule at most as many such steps happen as were left to do |
| `ChanRpc.System.ClosingIsLive` | framework/go/leaf/chanrpc/chanrpc.go:384-388 | in every reachable state in which a closing client is owed a callback such a step is possible |
| `ChanRpc.System.Run` | framework/go/leaf/chanrpc/chanrpc.go:83-388 | in every interleaving the whole system is what the steps make of it, queued replies plus calls in flight are pendingAsynCall between client operations and never exceed the channel; calls stay on record, as many asynchronous ones as were made; no callback runs twice, and when nothing is pending each has run once |
| `ChanRpc.RanIsServed` | framework/go/leaf/chanrpc/chanrpc.go:99-135 | in every interleaving the result on record for a call is the argument of the execution that served it |
| `ChanRpc.RunRecords` | framework/go/leaf/chanrpc/chanrpc.go:322-350 | calls stay on record, and the asynchronous ones gained are exactly the AsynCalls made with a proper callback by a client between operations |
| `LinearGo.LinearContext.Remove` | framework/go/leaf/go/go.go:100-105 | the list has a front, and it is the next function in submission order |
| `LinearGo.LinearContext.Send` | framework/go/leaf/go/go.go:107-108 | the callback is sent while the execution lock is held, in submission order |
| `LinearGo.LinearContext.Run` | framework/go/leaf/go/go.go:92-122 | under every schedule functions start, end and have their callbacks sent and run in submission order, one at a time |
| `LinearGo.LinearContext.StepOf` | framework/go/leaf/go/go.go:92-122 | a step of any goroutine that can step, or a callback, brings the end nearer |
| `LinearGo.LinearContext.Close` | framework/go/leaf/go/go.go:75-79 | with each round a step of any goroutine that can step, whatever the scheduler picks, closing ends, with every callback run in submission order |
| `HeapShape.AddedIsHeap` | timer/min_heap/minheap_internal/min_heap.c:89-102 | moving the new node up gives a heap with exactly one node more, and a node not earlier than the root leaves the root in place |
| `HeapShape.PoppedIsHeap` | timer/min_heap/minheap_internal/min_heap.c:129-140 | moving the last node to the root and down gives a heap without exactly the root |
| `HeapShape.DownIsHeap` | timer/min_heap/minheap_internal/min_heap.c:67-87 | sifting down repairs a heap with one hole |
| `MinHeap.TimeHeap.Resize` | timer/min_heap/minheap_internal/min_heap.c:34-47 | twice the capacity, the same nodes in the same slots |
| `MinHeap.TimeHeap.InsertTimeHeap` | timer/min_heap/minheap_internal/min_heap.c:89-102 | the array is the one that moving the hole up gives |
| `MinHeap.TimeHeap.PercolateDown` | timer/min_heap/minheap_internal/min_heap.c:67-87 | the array is the one that moving the hole down gives |
| `MinHeap.TimeHeap.AddTimer` | timer/min_heap/minheap_internal/min_heap.c:105-119 | the heap gains exactly the new node, growing when full |
| `MinHeap.TimeHeap.PopTimer` | timer/min_heap/minheap_internal/min_heap.c:129-140 | the heap loses exactly its root; the first slot of an emptied heap is NULL |
| `MinHeap.TimeHeap.DelTimer` | timer/min_heap/minheap_internal/min_heap.c:121-127 | only the callback of that node is cleared |
| `MinHeap.TimeHeap.Tick` | timer/min_heap/minheap_internal/min_heap.c:171-196 | exactly the nodes due, old or started by callbacks, leave in non-decreasing order of expiry; each ran if and only if its callback was set when its turn came; the nodes added are exactly those the callbacks that ran have started; the rest is a heap of nodes not due and no node is lost or duplicated |
| `MinHeap.ToldUncleared` | timer/min_heap/minheap_internal/min_heap.c:177-195 | when no callback clears a timer, a node that left ran if and only if its callback was set before the tick or it was started during the tick |
| `MinHeap.StartedIds` | timer/min_heap/minheap_internal/min_heap.c:105-119 | the nodes created are distinct, numbered in the order of their creation |

## Left out

- Re-entering itimer_core_run from a callback, one node used with two cores, and itimer_core_destroy.
- TimerEvents.Mgr.EvtStart: requires period >= 1 and no 32-bit overflow of current and slap, because with period 0 the catching-up loop does not end and the comparison at itimer.c:329 is plain unsigned.
- TimerEvents.Mgr.Run: requires interval * 64 + 300000 to fit in 32 bits, as the source's own arithmetic does.
- Events without a user callback, itimer_evt_init, itimer_evt_destroy and itimer_mgr_destroy.
- The packing of parent and colour in one word of the red-black tree; a cell has both as fields. The mirrored branches of rb_insert_color and __rb_erase_color are one method with a side.
- RbTree.Root.GiveWay: models the relinking of rb_erase as cutting out the successor and putting it in the node's place, which leaves the same memory but not after the same order of writes.
- Recursive mutexes, and a failed allocation in putStack of the deadlock detector; its printed reports and the waiting-time report.
- The other versions of the deadlock detector.
- The register switch of libco; the contents of a stack are a sequence of bytes that the running coroutine may change at will. Freeing private stacks, co_poll, hooks of system calls and file descriptors.
- SharedStack.Env.Resume: requires a coroutine that is not on the call stack and a depth below 128, as the source's fixed call stack does.
- CoTimeout.Wheel.TakeAllTimeout: requires a clock advance below 2^31 ms, because the count is computed in an int.
- CoTimeout.Wheel.AddTimeout: requires a clock above 0 and an item that is on no list, because AddTail silently ignores any other.
- CoTimeout.EventLoop.Round: requires a clock that does not run backwards, as the monotonic tick counter does not, and that coroutines time items for later than the round's time.
- Time zones, daylight saving and the part of a time below one second in cron expressions; NewCronExpr's splitting at white space and the texts of errors. A uint64 mask is the set of its bits.
- RandSample.RandIntervalN: the random source is a sequence of choices; its distribution is not modelled. RandGroup and RandInterval.
- The rolling log file and the wording of the drop notice; a buffer is a value owned by one field, so its memory is not modelled.
- Reattaching a channel-RPC client to another server; the arguments of calls. Calls by other clients and Server.Go are steps of one kind.
- Functions submitted with Go.Go, which share ChanCb with a linear context.
- MinHeap.TimeHeap.AddTimer: does not model the wrap-around of a 32-bit expiry, because times are compared with plain unsigned comparison; handles to freed timers are not used.
- The design-pattern demos, signal and slot, delegates, smart pointers, generated protocol code, sockets and the scripting tools: they would only add easy members.
