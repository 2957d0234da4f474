/**
 The scheduler and the semaphores as a state machine. Every function below is
 one stretch of kernel code that runs with interrupts off; a run is any sequence
 of them. `Kernel.dfy` proves the code against these functions.
 */
module Scheduling {

  // ----- ordered lists of thread ids -----

  type Key = map<nat, int>

  function At(key: Key, t: nat): int { if t in key then key[t] else 0 }

  /** `list_insert_ordered`: before the first element with a smaller key, so after its equals. */
  function InsertBy(s: seq<nat>, t: nat, key: Key): (r: seq<nat>)
    ensures |r| == |s| + 1
  {
    if s == [] then [t]
    else if At(key, s[0]) < At(key, t) then [t] + s
    else [s[0]] + InsertBy(s[1..], t, key)
  }

  /** `list_sort`, which is stable. */
  function SortBy(s: seq<nat>, key: Key): (r: seq<nat>)
    ensures |r| == |s|
  {
    if s == [] then [] else InsertBy(SortBy(s[..|s| - 1], key), s[|s| - 1], key)
  }

  ghost predicate Distinct(s: seq<nat>)
  {
    forall j, k :: 0 <= j < k < |s| ==> s[j] != s[k]
  }

  ghost predicate SortedBy(s: seq<nat>, key: Key)
  {
    forall j, k :: 0 <= j < k < |s| ==> At(key, s[j]) >= At(key, s[k])
  }

  lemma {:induction false} InsertElems(s: seq<nat>, t: nat, key: Key)
    ensures forall x :: x in InsertBy(s, t, key) <==> x in s || x == t
    ensures Distinct(s) && t !in s ==> Distinct(InsertBy(s, t, key))
    ensures SortedBy(s, key) ==> SortedBy(InsertBy(s, t, key), key)
  {
    if s != [] && At(key, s[0]) >= At(key, t) {
      InsertElems(s[1..], t, key);
      var rest := InsertBy(s[1..], t, key);
      assert forall x :: x in s <==> x == s[0] || x in s[1..];
      if Distinct(s) && t !in s { assert s[0] !in s[1..] && s[0] !in rest; }
      if SortedBy(s, key) {
        forall x | x in rest ensures At(key, s[0]) >= At(key, x) { }
      }
    } else if s != [] {
      if SortedBy(s, key) {
        forall x | x in s ensures At(key, t) >= At(key, x) { }
      }
    }
  }

  lemma {:induction false} SortElems(s: seq<nat>, key: Key)
    ensures forall x :: x in SortBy(s, key) <==> x in s
    ensures Distinct(s) ==> Distinct(SortBy(s, key))
    ensures SortedBy(SortBy(s, key), key)
  {
    if s != [] {
      var init, last := s[..|s| - 1], s[|s| - 1];
      SortElems(init, key);
      InsertElems(SortBy(init, key), last, key);
      assert s == init + [last];
      if Distinct(s) { assert last !in init; }
    }
  }

  /** Nobody inserted later overtakes an element whose key is at least as large. */
  lemma {:induction false} InsertBehind(s: seq<nat>, t: nat, key: Key, k: nat)
    requires SortedBy(s, key) && k < |s| && At(key, s[k]) >= At(key, t)
    ensures InsertBy(s, t, key)[k] == s[k]
  {
    assert At(key, s[0]) >= At(key, s[k]);
    if k > 0 {
      InsertBehind(s[1..], t, key, k - 1);
    }
  }

  // ----- kernel state -----

  datatype Status = Running | Ready | Sleeping | Blocked

  /** Whether a thread is inside the loop of `sema_down`, and on which semaphore. */
  datatype Where = Outside | InDown(sema: nat)

  datatype Tcb = Tcb(status: Status, priority: int, wakeTime: int, place: Where)

  datatype Sema = Sema(value: nat, waiters: seq<nat>)

  /** History of a semaphore; for a lock, also who is between acquire and release. */
  datatype History = History(initial: nat, ups: nat, downs: nat, isLock: bool, held: multiset<nat>)

  datatype State = State(
    threads: map<nat, Tcb>, ready: seq<nat>, sleeping: seq<nat>, semas: map<nat, Sema>,
    history: map<nat, History>, running: nat, idle: nat, now: int)

  function ByPriority(threads: map<nat, Tcb>): Key { map t | t in threads :: threads[t].priority }

  /** Earlier wake times come first. */
  function ByWakeTime(threads: map<nat, Tcb>): Key { map t | t in threads :: -threads[t].wakeTime }

  // ----- the invariants -----

  ghost predicate Placed(k: State, t: nat)
    requires t in k.threads
  {
    match k.threads[t].status
    case Running => t == k.running
    case Ready => t in k.ready || t == k.idle
    case Sleeping => t in k.sleeping
    case Blocked =>
      t == k.idle ||
      (k.threads[t].place.InDown? && k.threads[t].place.sema in k.semas && t in k.semas[k.threads[t].place.sema].waiters)
  }

  ghost predicate InList(k: State, s: seq<nat>, status: Status)
  {
    Distinct(s) && forall t :: t in s ==> t in k.threads && k.threads[t].status == status && t != k.idle
  }

  /** Status and queues agree, in both directions. */
  ghost predicate Agree(k: State)
  {
    && k.idle in k.threads && k.threads[k.idle].place.Outside?
    && InList(k, k.ready, Ready) && InList(k, k.sleeping, Sleeping)
    && (forall s :: s in k.semas ==> InList(k, k.semas[s].waiters, Blocked))
    && (forall s, t :: s in k.semas && t in k.semas[s].waiters ==> k.threads[t].place == InDown(s))
    && (forall t :: t in k.threads ==> Placed(k, t))
  }

  /** Threads that `sema_up` has woken and that have not yet looked at the value again. */
  ghost function Woken(k: State, s: nat): set<nat>
    requires s in k.semas
  {
    set t | t in k.threads && k.threads[t].place == InDown(s) && t !in k.semas[s].waiters
  }

  ghost predicate Balanced(sema: Sema, h: History)
  {
    && sema.value + h.downs == h.initial + h.ups
    && (h.isLock ==> h.initial == 1 && |h.held| + h.ups == h.downs)
  }

  /** A positive value is never left unnoticed while somebody waits. */
  ghost predicate NoLostWakeup(k: State, s: nat)
    requires s in k.semas
  {
    k.semas[s].waiters != [] ==> k.semas[s].value <= |Woken(k, s)|
  }

  ghost predicate SemasOk(k: State)
  {
    k.history.Keys == k.semas.Keys && forall s :: s in k.semas ==> Balanced(k.semas[s], k.history[s]) && NoLostWakeup(k, s)
  }

  ghost predicate SleepersSorted(k: State)
  {
    SortedBy(k.sleeping, ByWakeTime(k.threads))
  }

  ghost predicate Consistent(k: State)
  {
    Agree(k) && SemasOk(k) && SleepersSorted(k)
  }

  /** Between operations exactly the current thread is running. */
  ghost predicate Valid(k: State)
  {
    Consistent(k) && k.running in k.threads && k.threads[k.running].status == Running
  }

  // ----- steps -----

  function SetStatus(k: State, t: nat, status: Status): State
    requires t in k.threads
  {
    k.(threads := k.threads[t := k.threads[t].(status := status)])
  }

  /** At most one due sleeper is made ready (thread.c:657-668). */
  function WakeOne(k: State): State
  {
    if k.sleeping != [] && k.sleeping[0] in k.threads && k.now >= k.threads[k.sleeping[0]].wakeTime then
      var t := k.sleeping[0];
      SetStatus(k.(sleeping := k.sleeping[1..], ready := InsertBy(k.ready, t, ByPriority(k.threads))), t, Ready)
    else k
  }

  /** `next_thread_to_run` and the switch. */
  function Dispatch(k: State): State
  {
    if k.ready != [] && k.ready[0] in k.threads then
      SetStatus(k.(ready := k.ready[1..], running := k.ready[0]), k.ready[0], Running)
    else if k.idle in k.threads then SetStatus(k.(running := k.idle), k.idle, Running)
    else k
  }

  function Schedule(k: State): State { Dispatch(WakeOne(k)) }

  /** `thread_yield` before `schedule`: the idle thread does not enter the ready list. */
  function ParkReady(k: State): State
    requires k.running in k.threads
  {
    SetStatus(
      if k.running == k.idle then k else k.(ready := InsertBy(k.ready, k.running, ByPriority(k.threads))),
      k.running, Ready)
  }

  function Yield(k: State): State
    requires k.running in k.threads
  {
    Schedule(ParkReady(k))
  }

  /** The idle loop: `thread_block` without a queue. */
  function IdleBlock(k: State): State
    requires k.running in k.threads
  {
    Schedule(SetStatus(k, k.running, Blocked))
  }

  function ParkAsleep(k: State, ticks: int): State
    requires k.running in k.threads
  {
    var threads := k.threads[k.running := k.threads[k.running].(status := Sleeping, wakeTime := k.now + ticks)];
    k.(threads := threads, sleeping := InsertBy(k.sleeping, k.running, ByWakeTime(threads)))
  }

  /** `thread_sleep` does nothing for the idle thread. */
  function Sleep(k: State, ticks: int): State
    requires k.running in k.threads
  {
    if k.running == k.idle then k else Schedule(ParkAsleep(k, ticks))
  }

  function ParkWaiting(k: State, s: nat): State
    requires k.running in k.threads && s in k.semas
  {
    var sema := k.semas[s];
    k.(threads := k.threads[k.running := k.threads[k.running].(status := Blocked, place := InDown(s))],
       semas := k.semas[s := sema.(waiters := InsertBy(sema.waiters, k.running, ByPriority(k.threads)))])
  }

  function CompleteDown(k: State, s: nat): State
    requires k.running in k.threads && s in k.semas && s in k.history && k.semas[s].value > 0
  {
    var h := k.history[s];
    k.(threads := k.threads[k.running := k.threads[k.running].(place := Outside)],
       semas := k.semas[s := k.semas[s].(value := k.semas[s].value - 1)],
       history := k.history[s := h.(downs := h.downs + 1, held := h.held + multiset{k.running})])
  }

  /** One pass of the loop of `sema_down`: on entry, and again each time the thread is resumed. */
  function Down(k: State, s: nat): State
    requires k.running in k.threads && s in k.semas && s in k.history
  {
    if k.semas[s].value == 0 then Schedule(ParkWaiting(k, s)) else CompleteDown(k, s)
  }

  function TryDown(k: State, s: nat): State
    requires k.running in k.threads && s in k.semas && s in k.history
  {
    if k.semas[s].value == 0 then k else CompleteDown(k, s)
  }

  /** `thread_unblock` of the waiter with the highest priority. */
  function WakeWaiter(k: State, s: nat): (r: State)
    requires s in k.semas
    ensures r.semas.Keys == k.semas.Keys && r.history == k.history
    ensures r.running == k.running && r.threads.Keys == k.threads.Keys
  {
    var sorted := SortBy(k.semas[s].waiters, ByPriority(k.threads));
    if sorted == [] || sorted[0] !in k.threads then k
    else
      SetStatus(
        k.(semas := k.semas[s := k.semas[s].(waiters := sorted[1..])],
           ready := InsertBy(k.ready, sorted[0], ByPriority(k.threads))),
        sorted[0], Ready)
  }

  function Increment(k: State, s: nat): State
    requires s in k.semas && s in k.history
  {
    var h := k.history[s];
    k.(semas := k.semas[s := k.semas[s].(value := k.semas[s].value + 1)],
       history := k.history[s := h.(ups := h.ups + 1, held := if h.isLock then h.held - multiset{k.running} else h.held)])
  }

  function SortReady(k: State): State { k.(ready := SortBy(k.ready, ByPriority(k.threads))) }

  /** Outside interrupt context: switch if some ready thread has a higher priority. */
  function IfYield(k: State): State
    requires k.running in k.threads
  {
    var k1 := SortReady(k);
    if MustYield(k1) then Yield(k1) else k1
  }

  predicate MustYield(k: State)
    requires k.running in k.threads
  {
    k.ready != [] && k.threads[k.running].priority < At(ByPriority(k.threads), k.ready[0])
  }

  /** `sema_up`; in an interrupt handler `if_yield` only sorts and asks for a yield on return. */
  function Up(k: State, s: nat, interrupt: bool): State
    requires k.running in k.threads && s in k.semas && s in k.history
  {
    var k1 := Increment(WakeWaiter(k, s), s);
    if interrupt then SortReady(k1) else IfYield(k1)
  }

  /** A new thread, initialised and unblocked. */
  function Created(k: State, t: nat, priority: int): State
    requires t !in k.threads
  {
    var threads := k.threads[t := Tcb(Ready, priority, 0, Outside)];
    k.(threads := threads, ready := InsertBy(k.ready, t, ByPriority(threads)))
  }

  function Create(k: State, t: nat, priority: int): State
    requires t !in k.threads && k.running in k.threads
  {
    IfYield(Created(k, t, priority))
  }

  /** `thread_exit`: the thread leaves every list and its page is freed after the switch. */
  function Exit(k: State): State
  {
    Schedule(k.(threads := k.threads - {k.running}))
  }

  /** Donation and `thread_set_priority`, as far as the scheduler can see. */
  function Reprioritise(k: State, p: map<nat, int>): State
  {
    k.(threads := map t | t in k.threads :: if t in p then k.threads[t].(priority := p[t]) else k.threads[t])
  }

  function NewSema(k: State, s: nat, value: nat, isLock: bool): State
  {
    k.(semas := k.semas[s := Sema(value, [])], history := k.history[s := History(value, 0, 0, isLock, multiset{})])
  }

  // ----- the scheduler keeps the invariants -----

  /** Semaphores notice a thread only through its place. */
  lemma SamePlaces(k: State, k': State)
    requires SemasOk(k) && k'.semas == k.semas && k'.history == k.history
    requires k'.threads.Keys == k.threads.Keys && forall t :: t in k.threads ==> k'.threads[t].place == k.threads[t].place
    ensures SemasOk(k')
  {
    forall s | s in k.semas ensures NoLostWakeup(k', s) {
      assert Woken(k', s) == Woken(k, s);
    }
  }

  lemma SameSleepers(k: State, k': State)
    requires SleepersSorted(k)
    requires forall t :: t in k'.sleeping ==> t in k.threads && t in k'.threads && k'.threads[t].wakeTime == k.threads[t].wakeTime
    requires k'.sleeping == k.sleeping || (k.sleeping != [] && k'.sleeping == k.sleeping[1..])
    ensures SleepersSorted(k')
  {
    assert forall j :: 0 <= j < |k'.sleeping| ==> k'.sleeping[j] in k'.sleeping;
  }

  /** Apart from thread `t`, the two states have the same threads in the same queues. */
  ghost predicate SameBut(k: State, k': State, t: nat)
  {
    && k'.idle == k.idle && k'.semas.Keys == k.semas.Keys
    && (forall u :: u != t ==> (u in k'.threads <==> u in k.threads))
    && (forall u :: u in k.threads && u != t ==>
          k'.threads[u].status == k.threads[u].status && k'.threads[u].place == k.threads[u].place)
    && (forall u :: u != t ==> (u in k'.ready <==> u in k.ready) && (u in k'.sleeping <==> u in k.sleeping))
    && (forall s, u :: s in k.semas && u != t ==> (u in k'.semas[s].waiters <==> u in k.semas[s].waiters))
  }

  /** Thread `t` is in no queue but the one its status names. */
  ghost predicate OwnQueue(k: State, t: nat)
  {
    && (t in k.ready ==> t in k.threads && k.threads[t].status == Ready && t != k.idle)
    && (t in k.sleeping ==> t in k.threads && k.threads[t].status == Sleeping && t != k.idle)
    && (forall s :: s in k.semas && t in k.semas[s].waiters ==>
          t in k.threads && k.threads[t].status == Blocked && k.threads[t].place == InDown(s) && t != k.idle)
    && (t in k.threads ==> Placed(k, t))
    && (t == k.idle ==> t in k.threads && k.threads[t].place.Outside?)
  }

  ghost predicate DistinctQueues(k: State)
  {
    Distinct(k.ready) && Distinct(k.sleeping) && forall s :: s in k.semas ==> Distinct(k.semas[s].waiters)
  }

  /** Agreement survives when one thread moves to its proper place. */
  lemma AgreeMove(k: State, k': State, t: nat)
    requires Agree(k) && SameBut(k, k', t) && OwnQueue(k', t) && DistinctQueues(k')
    requires forall u :: u in k.threads && u != t && k.threads[u].status == Running ==> u == k'.running
    ensures Agree(k')
  {
    hide Distinct;
    forall u | u in k'.threads ensures Placed(k', u) {
      if u != t { assert Placed(k, u); }
    }
    assert InList(k', k'.ready, Ready) && InList(k', k'.sleeping, Sleeping);
    forall s | s in k'.semas ensures InList(k', k'.semas[s].waiters, Blocked) {
      assert InList(k, k.semas[s].waiters, Blocked);
    }
  }

  lemma NobodyRuns(k: State)
    requires Agree(k) && (k.running in k.threads ==> k.threads[k.running].status != Running)
    ensures forall u :: u in k.threads ==> k.threads[u].status != Running
  {
    forall u | u in k.threads ensures k.threads[u].status != Running { assert Placed(k, u); }
  }

  lemma HeadTail(s: seq<nat>)
    requires s != []
    ensures forall x :: x in s <==> x == s[0] || x in s[1..]
    ensures Distinct(s) ==> Distinct(s[1..]) && s[0] !in s[1..]
  {
  }

  lemma AgreeDistinct(k: State)
    requires Agree(k)
    ensures DistinctQueues(k)
  {
    forall s | s in k.semas ensures Distinct(k.semas[s].waiters) {
      assert InList(k, k.semas[s].waiters, Blocked);
    }
  }

  lemma WakeOneKeeps(k: State)
    requires Parked(k)
    ensures Consistent(WakeOne(k)) && WakeOne(k).running == k.running && WakeOne(k).threads.Keys == k.threads.Keys
    ensures k.running in k.threads ==> WakeOne(k).threads[k.running].status != Running
  {
    hide Agree, InList, SemasOk, SleepersSorted, InsertBy;
    var k' := WakeOne(k);
    if k' != k {
      var t := k.sleeping[0];
      QueueStatus(k, t);
      InsertElems(k.ready, t, ByPriority(k.threads));
      HeadTail(k.sleeping);
      AgreeDistinct(k);
      SamePlaces(k, k');
      SameSleepers(k, k');
      NobodyRuns(k);
      AgreeMove(k, k', t);
    }
  }

  /** Where `Agree` puts one thread. */
  lemma QueueStatus(k: State, t: nat)
    requires Agree(k)
    ensures t in k.ready ==> t in k.threads && k.threads[t].status == Ready && t != k.idle
    ensures t in k.sleeping ==> t in k.threads && k.threads[t].status == Sleeping && t != k.idle
    ensures forall s :: s in k.semas && t in k.semas[s].waiters ==>
              t in k.threads && k.threads[t].status == Blocked && k.threads[t].place == InDown(s) && t != k.idle
    ensures k.idle in k.threads && k.threads[k.idle].place.Outside?
    ensures t in k.threads ==> Placed(k, t)
    ensures forall u :: u in k.sleeping || u in k.ready ==> u in k.threads
  {
    forall s | s in k.semas && t in k.semas[s].waiters
      ensures t in k.threads && k.threads[t].status == Blocked && t != k.idle
    {
      assert InList(k, k.semas[s].waiters, Blocked);
    }
  }

  lemma DispatchKeeps(k: State)
    requires Parked(k)
    ensures Valid(Dispatch(k))
  {
    hide Agree, InList, SemasOk, SleepersSorted;
    var k' := Dispatch(k);
    var t := if k.ready != [] then k.ready[0] else k.idle;
    QueueStatus(k, t);
    SamePlaces(k, k');
    SameSleepers(k, k');
    if k.ready != [] { HeadTail(k.ready); }
    AgreeDistinct(k);
    NobodyRuns(k);
    AgreeMove(k, k', t);
  }

  lemma ScheduleKeeps(k: State)
    requires Parked(k)
    ensures Valid(Schedule(k))
  {
    WakeOneKeeps(k);
    DispatchKeeps(WakeOne(k));
  }

  /** The running thread of a valid state is in no queue. */
  lemma RunningAlone(k: State)
    requires Valid(k)
    ensures k.running !in k.ready && k.running !in k.sleeping
    ensures forall s :: s in k.semas ==> k.running !in k.semas[s].waiters
    ensures forall u :: u in k.threads && u != k.running ==> k.threads[u].status != Running
    ensures k.idle in k.threads && k.threads[k.idle].place.Outside?
    ensures forall u :: u in k.sleeping || u in k.ready ==> u in k.threads
  {
    hide Agree, SemasOk, SleepersSorted;
    QueueStatus(k, k.running);
    forall u | u in k.threads && u != k.running ensures k.threads[u].status != Running { QueueStatus(k, u); }
  }

  /** Ready to call `schedule`: consistent, and nobody is running. */
  ghost predicate Parked(k: State)
  {
    Consistent(k) && (k.running in k.threads ==> k.threads[k.running].status != Running)
  }

  lemma YieldParked(k: State)
    requires Valid(k)
    ensures Parked(ParkReady(k))
  {
    hide Agree, SemasOk, SleepersSorted, InsertBy, Distinct, Woken;
    var k' := ParkReady(k);
    RunningAlone(k);
    AgreeDistinct(k);
    InsertElems(k.ready, k.running, ByPriority(k.threads));
    SamePlaces(k, k');
    SameSleepers(k, k');
    AgreeMove(k, k', k.running);
  }

  lemma IdleParked(k: State)
    requires Valid(k) && k.running == k.idle
    ensures Parked(SetStatus(k, k.running, Blocked))
  {
    hide Agree, SemasOk, SleepersSorted;
    var k' := SetStatus(k, k.running, Blocked);
    RunningAlone(k);
    AgreeDistinct(k);
    SamePlaces(k, k');
    SameSleepers(k, k');
    AgreeMove(k, k', k.running);
  }

  lemma SleepParked(k: State, ticks: int)
    requires Valid(k) && k.running != k.idle
    ensures Parked(ParkAsleep(k, ticks))
  {
    hide Agree, SemasOk, InsertBy;
    var k' := ParkAsleep(k, ticks);
    RunningAlone(k);
    AgreeDistinct(k);
    InsertElems(k.sleeping, k.running, ByWakeTime(k'.threads));
    SleepersUntouched(k, k');
    SamePlaces(k, k');
    AgreeMove(k, k', k.running);
  }

  /** Setting the wake time of a thread that is not asleep does not disturb the order. */
  lemma SleepersUntouched(k: State, k': State)
    requires SleepersSorted(k)
    requires forall t :: t in k.sleeping ==> t in k.threads && t in k'.threads && k'.threads[t].wakeTime == k.threads[t].wakeTime
    ensures SortedBy(k.sleeping, ByWakeTime(k'.threads))
  {
    assert forall j :: 0 <= j < |k.sleeping| ==> k.sleeping[j] in k.sleeping;
  }

  lemma ExitParked(k: State)
    requires Valid(k) && k.running != k.idle && k.threads[k.running].place.Outside?
    ensures Parked(k.(threads := k.threads - {k.running}))
  {
    hide Agree, SleepersSorted;
    var k' := k.(threads := k.threads - {k.running});
    RunningAlone(k);
    AgreeDistinct(k);
    forall s | s in k.semas ensures NoLostWakeup(k', s) {
      assert Woken(k', s) == Woken(k, s);
    }
    SameSleepers(k, k');
    AgreeMove(k, k', k.running);
  }

  lemma WaitParked(k: State, s: nat)
    requires Valid(k) && s in k.semas && k.running != k.idle && k.semas[s].value == 0
    requires k.threads[k.running].place == Outside || k.threads[k.running].place == InDown(s)
    ensures Parked(ParkWaiting(k, s))
  {
    hide Agree, SleepersSorted, InsertBy, SemasOk, Woken;
    var k' := ParkWaiting(k, s);
    WaitSemas(k, s);
    RunningAlone(k);
    AgreeDistinct(k);
    InsertElems(k.semas[s].waiters, k.running, ByPriority(k.threads));
    SameSleepers(k, k');
    AgreeMove(k, k', k.running);
  }

  lemma WaitSemas(k: State, s: nat)
    requires Valid(k) && s in k.semas && k.running != k.idle && k.semas[s].value == 0
    requires k.threads[k.running].place == Outside || k.threads[k.running].place == InDown(s)
    ensures SemasOk(ParkWaiting(k, s))
  {
    hide Agree, SleepersSorted, InsertBy, SemasOk;
    var k' := ParkWaiting(k, s);
    SemaFacts(k, s);
    RunningAlone(k);
    InsertElems(k.semas[s].waiters, k.running, ByPriority(k.threads));
    forall r | r in k.semas && r != s ensures Woken(k', r) == Woken(k, r) { }
    OtherSemas(k, k', s);
  }

  // ----- semaphores -----

  lemma OtherSemas(k: State, k': State, s: nat)
    requires SemasOk(k) && s in k.semas && k'.semas.Keys == k.semas.Keys == k'.history.Keys
    requires forall r :: r in k.semas && r != s ==> k'.semas[r] == k.semas[r] && k'.history[r] == k.history[r]
    requires forall r :: r in k.semas && r != s ==> Woken(k', r) == Woken(k, r)
    requires Balanced(k'.semas[s], k'.history[s]) && NoLostWakeup(k', s)
    ensures SemasOk(k')
  {
  }

  /** A thread that finds the value 0 goes to sleep without breaking the promise to those already waiting. */
  lemma DownKeeps(k: State, s: nat)
    requires Valid(k) && s in k.semas && k.running != k.idle
    requires k.threads[k.running].place == Outside || k.threads[k.running].place == InDown(s)
    ensures s in k.history && Valid(Down(k, s))
  {
    hide Agree, SleepersSorted, Schedule, SemasOk, ParkWaiting, CompleteDown;
    SemaFacts(k, s);
    if k.semas[s].value == 0 {
      WaitParked(k, s);
      ScheduleKeeps(ParkWaiting(k, s));
    } else {
      CompleteDownKeeps(k, s);
    }
  }

  lemma SemaFacts(k: State, s: nat)
    requires SemasOk(k) && s in k.semas
    ensures s in k.history && k.history.Keys == k.semas.Keys
    ensures Balanced(k.semas[s], k.history[s]) && NoLostWakeup(k, s)
  {
  }

  lemma CompleteDownKeeps(k: State, s: nat)
    requires Valid(k) && s in k.semas && s in k.history && k.semas[s].value > 0
    requires k.threads[k.running].place == Outside || k.threads[k.running].place == InDown(s)
    ensures Valid(CompleteDown(k, s))
  {
    hide Agree, SleepersSorted, SemasOk, Woken, Balanced, NoLostWakeup;
    var k' := CompleteDown(k, s);
    CompleteDownSemas(k, s);
    RunningAlone(k);
    AgreeDistinct(k);
    SameSleepers(k, k');
    AgreeMove(k, k', k.running);
  }

  lemma CompleteDownSemas(k: State, s: nat)
    requires Valid(k) && s in k.semas && s in k.history && k.semas[s].value > 0
    requires k.threads[k.running].place == Outside || k.threads[k.running].place == InDown(s)
    ensures SemasOk(CompleteDown(k, s))
  {
    hide Agree, SleepersSorted, SemasOk;
    var k' := CompleteDown(k, s);
    SemaFacts(k, s);
    RunningAlone(k);
    forall r | r in k.semas && r != s ensures Woken(k', r) == Woken(k, r) { }
    assert Woken(k', s) == Woken(k, s) - {k.running};
    OtherSemas(k, k', s);
  }

  lemma WakeWaiterFacts(k: State, s: nat)
    requires Valid(k) && s in k.semas && k.semas[s].waiters != []
    ensures var sorted := SortBy(k.semas[s].waiters, ByPriority(k.threads));
            && sorted != [] && sorted[0] in k.semas[s].waiters && sorted[0] in k.threads && sorted[0] != k.running
            && k.threads[sorted[0]].status == Blocked && k.threads[sorted[0]].place == InDown(s) && sorted[0] != k.idle
            && sorted[0] !in k.ready && sorted[0] !in k.sleeping
            && Distinct(sorted) && (forall x :: x in k.semas[s].waiters <==> x == sorted[0] || x in sorted[1..])
            && sorted[0] !in sorted[1..]
  {
    hide Agree, SemasOk, SleepersSorted, SortBy;
    var sorted := SortBy(k.semas[s].waiters, ByPriority(k.threads));
    SortElems(k.semas[s].waiters, ByPriority(k.threads));
    AgreeDistinct(k);
    HeadTail(sorted);
    QueueStatus(k, sorted[0]);
  }

  lemma WakeWaiterAgree(k: State, s: nat)
    requires Valid(k) && s in k.semas
    ensures Agree(WakeWaiter(k, s)) && SleepersSorted(WakeWaiter(k, s))
  {
    hide Agree, SleepersSorted, SemasOk, SortBy, InsertBy;
    if k.semas[s].waiters != [] {
      var k' := WakeWaiter(k, s);
      RunningAlone(k);
      AgreeDistinct(k);
      WakeWaiterFacts(k, s);
      var sorted := SortBy(k.semas[s].waiters, ByPriority(k.threads));
      InsertElems(k.ready, sorted[0], ByPriority(k.threads));
      HeadTail(sorted);
      QueueStatus(k, sorted[0]);
      SameSleepers(k, k');
      AgreeMove(k, k', sorted[0]);
    }
  }

  lemma UpBalanced(k: State, s: nat)
    requires Valid(k) && s in k.semas && s in k.history
    requires k.history[s].isLock ==> k.running in k.history[s].held
    ensures SemasOk(Increment(WakeWaiter(k, s), s))
  {
    hide Agree, SleepersSorted, SemasOk, SortBy, InsertBy;
    SemaFacts(k, s);
    var k' := Increment(WakeWaiter(k, s), s);
    if k.semas[s].waiters != [] {
      WakeWaiterFacts(k, s);
      var t := SortBy(k.semas[s].waiters, ByPriority(k.threads))[0];
      assert Woken(k', s) == Woken(k, s) + {t};
    }
    forall r | r in k.semas && r != s ensures Woken(k', r) == Woken(k, r) { }
    OtherSemas(k, k', s);
  }

  /** Waking a waiter and raising the value go together, so no wake-up is lost. */
  lemma UpFirstHalf(k: State, s: nat)
    requires Valid(k) && s in k.semas && s in k.history
    requires k.history[s].isLock ==> k.running in k.history[s].held
    ensures Valid(Increment(WakeWaiter(k, s), s))
  {
    hide Agree, SleepersSorted, SemasOk, SortBy, InsertBy;
    UpBalanced(k, s);
    WakeWaiterAgree(k, s);
    if k.semas[s].waiters != [] { WakeWaiterFacts(k, s); }
    var k1 := WakeWaiter(k, s);
    SameValue(k1, Increment(k1, s));
  }

  /** The value of a semaphore is none of the queues' business. */
  lemma SameValue(k: State, k': State)
    requires Agree(k) && SleepersSorted(k)
    requires k' == k.(semas := k'.semas, history := k'.history, now := k'.now) && k'.semas.Keys == k.semas.Keys
    requires forall s :: s in k.semas ==> k'.semas[s].waiters == k.semas[s].waiters
    ensures Agree(k') && SleepersSorted(k')
  {
    forall t | t in k'.threads ensures Placed(k', t) { assert Placed(k, t); }
    forall s | s in k'.semas ensures InList(k', k'.semas[s].waiters, Blocked) {
      assert InList(k, k.semas[s].waiters, Blocked);
    }
  }

  lemma SortReadyKeeps(k: State)
    requires Valid(k)
    ensures Valid(SortReady(k))
  {
    hide Agree, SleepersSorted, SemasOk, SortBy;
    var k' := SortReady(k);
    SortElems(k.ready, ByPriority(k.threads));
    RunningAlone(k);
    AgreeDistinct(k);
    SamePlaces(k, k');
    SameSleepers(k, k');
    AgreeMove(k, k', k.running);
  }

  lemma IfYieldKeeps(k: State)
    requires Valid(k)
    ensures Valid(IfYield(k))
  {
    hide Consistent, SortBy, Schedule, ParkReady;
    SortReadyKeeps(k);
    if MustYield(SortReady(k)) {
      YieldParked(SortReady(k));
      ScheduleKeeps(ParkReady(SortReady(k)));
    }
  }

  lemma UpKeeps(k: State, s: nat, interrupt: bool)
    requires Valid(k) && s in k.semas && s in k.history
    requires k.history[s].isLock ==> k.running in k.history[s].held
    ensures Valid(Up(k, s, interrupt))
  {
    hide Consistent, IfYield, SortReady;
    UpFirstHalf(k, s);
    SortReadyKeeps(Increment(WakeWaiter(k, s), s));
    IfYieldKeeps(Increment(WakeWaiter(k, s), s));
  }

  lemma CreatedValid(k: State, t: nat, priority: int)
    requires Valid(k) && t !in k.threads
    ensures Valid(Created(k, t, priority))
  {
    hide Agree, SleepersSorted, SemasOk, InsertBy;
    var k' := Created(k, t, priority);
    InsertElems(k.ready, t, ByPriority(k'.threads));
    RunningAlone(k);
    AgreeDistinct(k);
    QueueStatus(k, t);
    forall r | r in k.semas ensures NoLostWakeup(k', r) {
      SemaFacts(k, r);
      assert Woken(k', r) == Woken(k, r);
    }
    NewThreadSemas(k, k');
    SameSleepers(k, k');
    AgreeMove(k, k', t);
  }

  lemma NewThreadSemas(k: State, k': State)
    requires SemasOk(k) && k'.semas == k.semas && k'.history == k.history
    requires forall r :: r in k.semas ==> NoLostWakeup(k', r)
    ensures SemasOk(k')
  {
  }

  lemma ReprioritiseKeeps(k: State, p: map<nat, int>)
    requires Valid(k)
    ensures Valid(Reprioritise(k, p))
  {
    hide Agree, SleepersSorted, SemasOk;
    var k' := Reprioritise(k, p);
    RunningAlone(k);
    AgreeDistinct(k);
    SamePlaces(k, k');
    SameSleepers(k, k');
    AgreeMove(k, k', k.running);
  }

  lemma NewSemaKeeps(k: State, s: nat, value: nat, isLock: bool)
    requires Valid(k) && s !in k.semas && (isLock ==> value == 1)
    ensures Valid(NewSema(k, s, value, isLock))
  {
    hide SleepersSorted, Agree;
    var k' := NewSema(k, s, value, isLock);
    forall r | r in k.semas ensures Woken(k', r) == Woken(k, r) { }
    SameSleepersTrivial(k, k');
    NewSemaAgree(k, k', s);
  }

  lemma NewSemaAgree(k: State, k': State, s: nat)
    requires Agree(k) && s !in k.semas && s in k'.semas && k'.semas == k.semas[s := Sema(k'.semas[s].value, [])]
    requires k' == k.(semas := k'.semas, history := k'.history)
    ensures Agree(k')
  {
    forall t | t in k'.threads ensures Placed(k', t) { assert Placed(k, t); }
    forall r | r in k'.semas ensures InList(k', k'.semas[r].waiters, Blocked) {
      if r != s { assert InList(k, k.semas[r].waiters, Blocked); }
    }
  }

  lemma SameSleepersTrivial(k: State, k': State)
    requires SleepersSorted(k) && k'.sleeping == k.sleeping && k'.threads == k.threads
    ensures SleepersSorted(k')
  {
  }

  // ----- runs -----

  datatype Op =
    | DoDown(sema: nat)
    | DoTryDown(sema: nat)
    | DoUp(sema: nat)
    | DoUpInterrupt(sema: nat)
    | DoYield
    | DoIfYield
    | DoSleep(ticks: nat)
    | DoCreate(thread: nat, priority: int)
    | DoExit
    | DoIdle
    | DoReprioritise(priorities: map<nat, int>)
    | DoNewSema(sema: nat, value: nat, isLock: bool)
    | DoTick

  /** What the running thread, or the timer, may do next. A resumed waiter first looks at the value again. */
  predicate Enabled(k: State, op: Op)
    requires k.running in k.threads
  {
    var outside := k.threads[k.running].place.Outside?;
    match op
    case DoDown(s) =>
      k.running != k.idle && s in k.semas && s in k.history && (outside || k.threads[k.running].place == InDown(s))
    case DoTryDown(s) => outside && s in k.semas && s in k.history
    case DoUp(s) => outside && s in k.semas && s in k.history && (k.history[s].isLock ==> k.running in k.history[s].held)
    case DoUpInterrupt(s) => outside && s in k.semas && s in k.history && !k.history[s].isLock
    case DoYield => outside
    case DoIfYield => outside
    case DoSleep(_) => outside
    case DoCreate(t, _) => outside && t !in k.threads
    case DoExit => outside && k.running != k.idle
    case DoIdle => k.running == k.idle
    case DoReprioritise(_) => true
    case DoNewSema(s, value, isLock) => s !in k.semas && (isLock ==> value == 1)
    case DoTick => true
  }

  function Step(k: State, op: Op): State
    requires k.running in k.threads
  {
    if !Enabled(k, op) then k else
    match op
    case DoDown(s) => Down(k, s)
    case DoTryDown(s) => TryDown(k, s)
    case DoUp(s) => Up(k, s, false)
    case DoUpInterrupt(s) => Up(k, s, true)
    case DoYield => Yield(k)
    case DoIfYield => IfYield(k)
    case DoSleep(ticks) => Sleep(k, ticks)
    case DoCreate(t, p) => Create(k, t, p)
    case DoExit => Exit(k)
    case DoIdle => IdleBlock(k)
    case DoReprioritise(p) => Reprioritise(k, p)
    case DoNewSema(s, value, isLock) => NewSema(k, s, value, isLock)
    case DoTick => k.(now := k.now + 1)
  }

  /** Agreement of status and queues, the semaphore equations and the sorted sleepers hold after every step. */
  lemma StepKeeps(k: State, op: Op)
    requires Valid(k)
    ensures Valid(Step(k, op))
  {
    hide Agree, SemasOk, SleepersSorted, Down, CompleteDown, Up, Created, IfYield, Reprioritise, NewSema, Schedule, ParkReady, ParkAsleep;
    if Enabled(k, op) {
      match op
      case DoDown(s) => DownKeeps(k, s);
      case DoTryDown(s) => if k.semas[s].value > 0 { CompleteDownKeeps(k, s); }
      case DoUp(s) => UpKeeps(k, s, false);
      case DoUpInterrupt(s) => UpKeeps(k, s, true);
      case DoYield =>
        YieldParked(k);
        ScheduleKeeps(ParkReady(k));
      case DoIfYield => IfYieldKeeps(k);
      case DoSleep(ticks) =>
        if k.running != k.idle {
          SleepParked(k, ticks);
          ScheduleKeeps(ParkAsleep(k, ticks));
        }
      case DoCreate(t, p) =>
        CreatedValid(k, t, p);
        IfYieldKeeps(Created(k, t, p));
      case DoExit =>
        ExitParked(k);
        ScheduleKeeps(k.(threads := k.threads - {k.running}));
      case DoIdle =>
        IdleParked(k);
        ScheduleKeeps(SetStatus(k, k.running, Blocked));
      case DoReprioritise(p) => ReprioritiseKeeps(k, p);
      case DoNewSema(s, value, isLock) => NewSemaKeeps(k, s, value, isLock);
      case DoTick => TickKeeps(k);
    }
  }

  lemma TickKeeps(k: State)
    requires Valid(k)
    ensures Valid(k.(now := k.now + 1))
  {
    hide SleepersSorted;
    var k' := k.(now := k.now + 1);
    SameValue(k, k');
    forall s | s in k.semas ensures Woken(k', s) == Woken(k, s) { }
  }

  /** The state after the first `n` operations of a run. */
  ghost function After(k: State, ops: seq<Op>, n: nat): State
    requires n <= |ops| && Valid(k)
    ensures Valid(After(k, ops, n))
    decreases n
  {
    if n == 0 then k
    else
      StepKeeps(After(k, ops, n - 1), ops[n - 1]);
      Step(After(k, ops, n - 1), ops[n - 1])
  }

  /** In every reachable state: `value` counts exactly, and a lock has at most one holder. */
  lemma MutualExclusion(k: State, ops: seq<Op>, n: nat, s: nat)
    requires Valid(k) && n <= |ops| && s in After(k, ops, n).semas
    ensures var a := After(k, ops, n);
            && s in a.history && a.semas[s].value == a.history[s].initial + a.history[s].ups - a.history[s].downs
            && (a.semas[s].waiters != [] ==> a.semas[s].value <= |Woken(a, s)|)
            && (a.history[s].isLock ==> |a.history[s].held| <= 1)
            && (a.history[s].isLock ==> (|a.history[s].held| == 1 <==> a.semas[s].value == 0))
  {
    hide Agree, SleepersSorted, After;
    SemaFacts(After(k, ops, n), s);
  }

  /** In every reachable state a thread is in at most one queue, and its status says which. */
  lemma OneQueue(k: State, ops: seq<Op>, n: nat, t: nat)
    requires Valid(k) && n <= |ops| && t in After(k, ops, n).threads
    ensures var a := After(k, ops, n);
            var status := a.threads[t].status;
            && (t in a.ready <==> status == Ready && t != a.idle)
            && (t in a.sleeping <==> status == Sleeping)
            && (forall s :: s in a.semas && t in a.semas[s].waiters ==> status == Blocked && a.threads[t].place == InDown(s))
            && (status == Blocked && t != a.idle ==> exists s :: s in a.semas && t in a.semas[s].waiters)
            && (status == Running <==> t == a.running)
  {
    hide SemasOk, SleepersSorted, After;
    QueueStatus(After(k, ops, n), t);
  }

  // ----- sleepers -----

  /** How many times `schedule` runs in a step. */
  function Calls(k: State, op: Op): nat
    requires k.running in k.threads
  {
    if !Enabled(k, op) then 0 else
    match op
    case DoDown(s) => if k.semas[s].value == 0 then 1 else 0
    case DoUp(s) => var k1 := Increment(WakeWaiter(k, s), s); if k1.running in k1.threads && MustYield(SortReady(k1)) then 1 else 0
    case DoYield => 1
    case DoIfYield => if MustYield(SortReady(k)) then 1 else 0
    case DoSleep(_) => if k.running == k.idle then 0 else 1
    case DoCreate(t, p) =>
      if MustYield(SortReady(Created(k, t, p))) then 1 else 0
    case DoExit => 1
    case DoIdle => 1
    case _ => 0
  }

  /**
   Thread `t`, asleep at position `i` before a step with `calls` calls of
   `schedule`: it is woken only if it is due, and if it is due it is woken or
   moves up by one position per call.
   */
  ghost predicate Advances(k: State, k': State, t: nat, i: nat, calls: nat)
  {
    && i < |k.sleeping| && k.sleeping[i] == t && t in k.threads && t in k'.threads && k'.now >= k.now
    && (t in k'.sleeping ==> k'.threads[t].wakeTime == k.threads[t].wakeTime)
    && (t !in k'.sleeping ==> k.now >= k.threads[t].wakeTime && k'.threads[t].status in {Ready, Running})
    && (k.now >= k.threads[t].wakeTime && t in k'.sleeping ==>
          calls <= i && i - calls < |k'.sleeping| && k'.sleeping[i - calls] == t)
  }

  /** Before the call of `schedule`, position `i` and the wake times are as at the start. */
  ghost predicate Unmoved(k: State, k': State, t: nat, i: nat)
  {
    && k'.now == k.now && i < |k'.sleeping| && k'.sleeping[i] == t && t in k.threads && t in k'.threads
    && k'.threads[t].wakeTime == k.threads[t].wakeTime && k'.threads[t].status == Sleeping
  }

  /** What `WakeOne` does to a sleeper, and that the switch that follows does not disturb it. */
  lemma WakeOneMoves(p: State, t: nat, i: nat)
    requires Parked(p) && i < |p.sleeping| && p.sleeping[i] == t
    ensures t in p.threads && t in WakeOne(p).threads && WakeOne(p).now == p.now
    ensures WakeOne(p).threads[t].wakeTime == p.threads[t].wakeTime
    ensures p.now >= p.threads[t].wakeTime ==>
              WakeOne(p).sleeping == p.sleeping[1..] && (i == 0 ==> WakeOne(p).threads[t].status == Ready)
    ensures p.now < p.threads[t].wakeTime ==> t in WakeOne(p).sleeping
    ensures t in WakeOne(p).sleeping ==> WakeOne(p).threads[t].status == Sleeping
    ensures i == 0 || p.now < p.threads[p.sleeping[0]].wakeTime ==> (t in WakeOne(p).sleeping <==> p.now < p.threads[p.sleeping[0]].wakeTime)
    ensures i > 0 ==> t in WakeOne(p).sleeping
  {
    hide Agree, SemasOk, InsertBy;
    var head := p.sleeping[0];
    AgreeDistinct(p);
    QueueStatus(p, head);
    QueueStatus(p, t);
    HeadTail(p.sleeping);
    assert At(ByWakeTime(p.threads), head) >= At(ByWakeTime(p.threads), p.sleeping[i]);
    if i > 0 { assert p.sleeping[1..][i - 1] == t; }
  }

  lemma DispatchSleeper(w: State, t: nat)
    requires Parked(w) && t in w.threads
    ensures var d := Dispatch(w);
            && d.sleeping == w.sleeping && d.now == w.now && t in d.threads && d.threads[t].wakeTime == w.threads[t].wakeTime
            && (d.threads[t].status == w.threads[t].status || d.threads[t].status == Running)
  {
  }

  /** One call of `schedule` wakes the head if it is due, and the head is due if anyone is. */
  lemma ScheduleAdvances(k: State, p: State, t: nat, i: nat)
    requires i < |k.sleeping| && k.sleeping[i] == t && t in k.threads
    requires Parked(p) && Unmoved(k, p, t, i)
    ensures Advances(k, Schedule(p), t, i, 1)
  {
    hide Agree, SemasOk, SleepersSorted, WakeOne, Dispatch;
    WakeOneMoves(p, t, i);
    WakeOneKeeps(p);
    DispatchSleeper(WakeOne(p), t);
    if i > 0 { assert p.sleeping[1..][i - 1] == t; }
  }

  /** A state that differs only outside the sleeping list. */
  lemma StillAdvances(k: State, k': State, t: nat, i: nat)
    requires i < |k.sleeping| && k.sleeping[i] == t && t in k.threads && Unmoved(k, k', t, i)
    ensures Advances(k, k', t, i, 0)
  {
    assert t in k'.sleeping;
  }

  /** `if_yield` after a change that left the sleepers alone. */
  lemma IfYieldAdvances(k: State, k1: State, t: nat, i: nat)
    requires i < |k.sleeping| && k.sleeping[i] == t && t in k.threads && Unmoved(k, k1, t, i)
    requires Valid(k1)
    ensures Advances(k, IfYield(k1), t, i, if MustYield(SortReady(k1)) then 1 else 0)
  {
    hide Agree, SemasOk, SleepersSorted, SortBy, InsertBy, Schedule, Advances;
    SortReadyKeeps(k1);
    var k2 := SortReady(k1);
    if MustYield(k2) {
      YieldParked(k2);
      QueueStatus(k2, t);
      ScheduleAdvances(k, ParkReady(k2), t, i);
    } else {
      StillAdvances(k, k2, t, i);
    }
  }

  lemma WakeWaiterUnmoved(k: State, s: nat, t: nat, i: nat)
    requires Valid(k) && s in k.semas && s in k.history && i < |k.sleeping| && k.sleeping[i] == t && t in k.threads
    ensures Unmoved(k, Increment(WakeWaiter(k, s), s), t, i)
  {
    hide Agree, SemasOk, SleepersSorted, SortBy, InsertBy;
    QueueStatus(k, t);
    if k.semas[s].waiters != [] { WakeWaiterFacts(k, s); }
  }

  lemma StepAdvances(k: State, op: Op, t: nat, i: nat)
    requires Valid(k) && i < |k.sleeping| && k.sleeping[i] == t
    ensures t in k.threads && Advances(k, Step(k, op), t, i, Calls(k, op))
  {
    hide Agree, SemasOk, SleepersSorted, SortBy, InsertBy, Schedule, Advances, IfYield, WakeWaiter, Increment;
    QueueStatus(k, t);
    RunningAlone(k);
    if !Enabled(k, op) {
      StillAdvances(k, k, t, i);
    } else {
      match op
      case DoDown(s) =>
        if k.semas[s].value == 0 {
          WaitParked(k, s);
          ScheduleAdvances(k, ParkWaiting(k, s), t, i);
        } else {
          StillAdvances(k, CompleteDown(k, s), t, i);
        }
      case DoTryDown(s) => StillAdvances(k, TryDown(k, s), t, i);
      case DoUp(s) =>
        UpFirstHalf(k, s);
        WakeWaiterUnmoved(k, s, t, i);
        IfYieldAdvances(k, Increment(WakeWaiter(k, s), s), t, i);
      case DoUpInterrupt(s) =>
        WakeWaiterUnmoved(k, s, t, i);
        StillAdvances(k, SortReady(Increment(WakeWaiter(k, s), s)), t, i);
      case DoYield =>
        YieldParked(k);
        ScheduleAdvances(k, ParkReady(k), t, i);
      case DoIfYield => IfYieldAdvances(k, k, t, i);
      case DoSleep(ticks) => SleepAdvances(k, ticks, t, i);
      case DoCreate(u, p) =>
        CreatedValid(k, u, p);
        IfYieldAdvances(k, Created(k, u, p), t, i);
      case DoExit =>
        ExitParked(k);
        ScheduleAdvances(k, k.(threads := k.threads - {k.running}), t, i);
      case DoIdle =>
        IdleParked(k);
        ScheduleAdvances(k, SetStatus(k, k.running, Blocked), t, i);
      case DoReprioritise(p) => StillAdvances(k, Reprioritise(k, p), t, i);
      case DoNewSema(s, value, isLock) => StillAdvances(k, NewSema(k, s, value, isLock), t, i);
      case DoTick => TickAdvances(k, t, i);
    }
  }

  lemma TickAdvances(k: State, t: nat, i: nat)
    requires i < |k.sleeping| && k.sleeping[i] == t && t in k.threads
    ensures Advances(k, k.(now := k.now + 1), t, i, 0)
  {
  }

  /** A thread that goes to sleep now cannot overtake one that is already due. */
  lemma SleepAdvances(k: State, ticks: nat, t: nat, i: nat)
    requires Valid(k) && i < |k.sleeping| && k.sleeping[i] == t && t in k.threads
    ensures Advances(k, Sleep(k, ticks), t, i, if k.running == k.idle then 0 else 1)
  {
    hide Agree, SemasOk, InsertBy, Schedule;
    QueueStatus(k, t);
    RunningAlone(k);
    if k.running == k.idle {
      StillAdvances(k, k, t, i);
    } else {
      var p := ParkAsleep(k, ticks);
      SleepParked(k, ticks);
      SleepersUntouched(k, p);
      InsertElems(k.sleeping, k.running, ByWakeTime(p.threads));
      if k.now >= k.threads[t].wakeTime {
        InsertBehind(k.sleeping, k.running, ByWakeTime(p.threads), i);
        ScheduleAdvances(k, p, t, i);
      } else {
        NotDueStays(k, p, t, i);
      }
    }
  }

  /** Nobody is woken early. */
  lemma NotDueStays(k: State, p: State, t: nat, i: nat)
    requires i < |k.sleeping| && k.sleeping[i] == t && t in k.threads && k.now < k.threads[t].wakeTime
    requires Parked(p) && t in p.sleeping && p.now == k.now && t in p.threads && p.threads[t].wakeTime == k.threads[t].wakeTime
    ensures Advances(k, Schedule(p), t, i, 1)
  {
    hide Agree, SemasOk, SleepersSorted, WakeOne, Dispatch;
    var j :| 0 <= j < |p.sleeping| && p.sleeping[j] == t;
    WakeOneMoves(p, t, j);
    WakeOneKeeps(p);
    DispatchSleeper(WakeOne(p), t);
  }

  /** Total number of calls of `schedule` in the first `n` operations. */
  ghost function TotalCalls(k: State, ops: seq<Op>, n: nat): nat
    requires n <= |ops| && Valid(k)
  {
    if n == 0 then 0 else TotalCalls(k, ops, n - 1) + Calls(After(k, ops, n - 1), ops[n - 1])
  }

  /**
   The sleep bound. A due thread with `i` threads ahead of it has left the
   sleeping list by the time `schedule` has been called `i + 1` times, whatever
   else happens in the run.
   */
  lemma {:induction false} SleepBound(k: State, ops: seq<Op>, n: nat, t: nat, i: nat)
    requires Valid(k) && n <= |ops| && i < |k.sleeping| && k.sleeping[i] == t
    requires t in k.threads && k.now >= k.threads[t].wakeTime
    requires forall m :: 0 <= m <= n ==> t in After(k, ops, m).sleeping
    ensures TotalCalls(k, ops, n) <= i
    ensures var a := After(k, ops, n);
            var j := i - TotalCalls(k, ops, n);
            j < |a.sleeping| && a.sleeping[j] == t && t in a.threads && a.now >= a.threads[t].wakeTime
  {
    hide Valid, Step, Calls;
    if n > 0 {
      SleepBound(k, ops, n - 1, t, i);
      var b, op := After(k, ops, n - 1), ops[n - 1];
      StepAdvances(b, op, t, i - TotalCalls(k, ops, n - 1));
      assert t in After(k, ops, n).sleeping;
    }
  }

  /** In no step does a thread leave the sleeping list before its wake time. */
  lemma NeverEarly(k: State, op: Op, t: nat)
    requires Valid(k) && t in k.sleeping && t !in Step(k, op).sleeping
    ensures t in k.threads && k.now >= k.threads[t].wakeTime
  {
    hide Agree, SemasOk, SleepersSorted, Step, Calls;
    var i :| 0 <= i < |k.sleeping| && k.sleeping[i] == t;
    StepAdvances(k, op, t, i);
  }

  // ----- priorities -----

  /**
   `if_yield` outside interrupts: if the running thread keeps the processor, no
   ready thread has a higher priority; if it is switched away, the thread chosen
   is maximal among the ready threads, itself and the sleeper woken by the switch.
   */
  lemma IfYieldEnforcesPriority(k: State)
    requires Valid(k)
    ensures var k1 := SortReady(k);
            && (!MustYield(k1) ==> IfYield(k) == k1 && forall t :: t in k.ready ==> k.threads[t].priority <= k.threads[k.running].priority)
            && (MustYield(k1) ==>
                  var k2 := WakeOne(ParkReady(k1));
                  var chosen := IfYield(k).running;
                  && chosen in k.threads
                  && (forall t :: t in k.ready || t == k.running ==> t in k.threads && k.threads[t].priority <= k.threads[chosen].priority)
                  && (forall t :: t in k2.ready ==> t in k.threads && k.threads[t].priority <= k.threads[chosen].priority))
  {
    hide Agree, SemasOk, SleepersSorted, SortBy, InsertBy, WakeOne, ParkReady, Consistent;
    SortReadyKeeps(k);
    SortElems(k.ready, ByPriority(k.threads));
    RunningAlone(k);
    if MustYield(SortReady(k)) {
      YieldedReady(SortReady(k));
    } else {
      forall t | t in k.ready ensures k.threads[t].priority <= k.threads[k.running].priority {
        var ready := SortReady(k).ready;
        var j :| 0 <= j < |ready| && ready[j] == t;
      }
    }
  }

  /** The ready list from which a yield chooses is sorted and holds everyone who can run. */
  lemma YieldedReady(k: State)
    requires Valid(k) && SortedBy(k.ready, ByPriority(k.threads)) && k.ready != []
    ensures var w := WakeOne(ParkReady(k));
            && w.ready != [] && w.ready[0] in k.threads && Yield(k).running == w.ready[0]
            && (forall t :: t in w.ready ==> t in k.threads && k.threads[t].priority <= k.threads[w.ready[0]].priority)
            && (forall t :: t in k.ready ==> t in w.ready) && (k.running != k.idle ==> k.running in w.ready)
  {
    hide Agree, SemasOk, SleepersSorted, InsertBy, WakeOne, Consistent;
    var key := ByPriority(k.threads);
    var p := ParkReady(k);
    RunningAlone(k);
    YieldParked(k);
    InsertElems(k.ready, k.running, key);
    SamePriorities(k, p);
    WokenReady(p, key);
    var w := WakeOne(p);
    assert k.ready[0] in p.ready && k.ready[0] in w.ready;
    forall t | t in w.ready ensures t in k.threads && At(key, t) <= At(key, w.ready[0]) {
      var j :| 0 <= j < |w.ready| && w.ready[j] == t;
    }
  }

  lemma WokenReady(p: State, key: Key)
    requires Parked(p) && key == ByPriority(p.threads) && SortedBy(p.ready, key)
    ensures var w := WakeOne(p);
            && SortedBy(w.ready, key) && w.threads.Keys == p.threads.Keys
            && (forall t :: t in p.ready ==> t in w.ready) && (forall t :: t in w.ready ==> t in p.threads)
  {
    hide Agree, SemasOk, SleepersSorted, InsertBy;
    QueueStatus(p, p.running);
    if p.sleeping != [] { InsertElems(p.ready, p.sleeping[0], key); }
  }

  lemma SamePriorities(k: State, k': State)
    requires k'.threads.Keys == k.threads.Keys && forall t :: t in k.threads ==> k'.threads[t].priority == k.threads[t].priority
    ensures ByPriority(k'.threads) == ByPriority(k.threads)
  {
  }
}
