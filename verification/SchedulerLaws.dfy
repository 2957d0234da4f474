/**
 What the scheduler's steps mean to the threads: equal priorities keep their
 order, `sema_up` wakes the highest and earliest waiter, counters and priorities
 change only where they should, and a sleeper sleeps as long as it asked.
 */
module SchedulerLaws {
  import opened Scheduling

  // ----- stability -----

  /** The elements with key `c`, in order. */
  function Equals(s: seq<nat>, key: Key, c: int): seq<nat>
  {
    if s == [] then [] else (if At(key, s[0]) == c then [s[0]] else []) + Equals(s[1..], key, c)
  }

  lemma {:induction false} EqualsBelow(s: seq<nat>, key: Key, c: int)
    requires forall x :: x in s ==> At(key, x) < c
    ensures Equals(s, key, c) == []
  {
    if s != [] {
      assert s[0] in s;
      EqualsBelow(s[1..], key, c);
    }
  }

  lemma {:induction false} EqualsSnoc(s: seq<nat>, t: nat, key: Key, c: int)
    ensures Equals(s + [t], key, c) == Equals(s, key, c) + if At(key, t) == c then [t] else []
  {
    if s != [] {
      EqualsSnoc(s[1..], t, key, c);
      assert (s + [t])[1..] == s[1..] + [t];
    }
  }

  /** An element inserted in order goes behind all its equals and changes the order of nothing else. */
  lemma {:induction false} InsertStable(s: seq<nat>, t: nat, key: Key, c: int)
    requires SortedBy(s, key)
    ensures Equals(InsertBy(s, t, key), key, c) == Equals(s, key, c) + if At(key, t) == c then [t] else []
  {
    hide Equals, SortedBy;
    EqualsCons(t, s, key, c);
    if s == [] {
      NoEquals(key, c);
      assert [t] + s == [t];
    } else if At(key, s[0]) < At(key, t) {
      if At(key, t) == c {
        SortedHead(s, key);
        EqualsBelow(s, key, c);
      }
    } else {
      SortedHead(s, key);
      InsertStable(s[1..], t, key, c);
      EqualsCons(s[0], s[1..], key, c);
      EqualsCons(s[0], InsertBy(s[1..], t, key), key, c);
      assert [s[0]] + s[1..] == s;
    }
  }

  lemma NoEquals(key: Key, c: int)
    ensures Equals([], key, c) == []
  {
  }

  lemma EqualsCons(t: nat, s: seq<nat>, key: Key, c: int)
    ensures Equals([t] + s, key, c) == (if At(key, t) == c then [t] else []) + Equals(s, key, c)
  {
    assert ([t] + s)[1..] == s;
  }

  lemma SortedHead(s: seq<nat>, key: Key)
    requires SortedBy(s, key) && s != []
    ensures SortedBy(s[1..], key) && forall x :: x in s ==> At(key, x) <= At(key, s[0])
  {
  }

  /** `list_sort` keeps the order of equal elements. */
  lemma {:induction false} SortStable(s: seq<nat>, key: Key, c: int)
    ensures Equals(SortBy(s, key), key, c) == Equals(s, key, c)
  {
    hide SortedBy, Distinct, InsertBy;
    if s != [] {
      var init, last := s[..|s| - 1], s[|s| - 1];
      SortStable(init, key, c);
      SortElems(init, key);
      InsertStable(SortBy(init, key), last, key, c);
      EqualsSnoc(init, last, key, c);
      assert s == init + [last];
    }
  }

  /** The first element with key `c`. */
  lemma {:induction false} FirstEqual(s: seq<nat>, key: Key, c: int) returns (i: nat)
    requires Equals(s, key, c) != []
    ensures i < |s| && s[i] == Equals(s, key, c)[0] && At(key, s[i]) == c
    ensures forall j :: 0 <= j < i ==> At(key, s[j]) != c
  {
    if At(key, s[0]) == c {
      i := 0;
    } else {
      i := FirstEqual(s[1..], key, c);
      i := i + 1;
      assert forall j :: 1 <= j < i ==> s[j] == s[1..][j - 1];
    }
  }

  /** The head of a sorted list is its earliest maximum in the original order. */
  lemma HeadOfSort(s: seq<nat>, key: Key) returns (i: nat)
    requires s != []
    ensures |SortBy(s, key)| == |s| && i < |s| && s[i] == SortBy(s, key)[0]
    ensures forall j :: 0 <= j < |s| ==> At(key, s[j]) <= At(key, s[i])
    ensures forall j :: 0 <= j < i ==> At(key, s[j]) < At(key, s[i])
  {
    hide SortBy;
    var r := SortBy(s, key);
    var c := At(key, r[0]);
    SortElems(s, key);
    SortStable(s, key, c);
    i := FirstEqual(s, key, c);
    assert Equals(r, key, c)[0] == r[0];
    forall j | 0 <= j < |s| ensures At(key, s[j]) <= c {
      assert s[j] in r;
      var m :| 0 <= m < |r| && r[m] == s[j];
    }
  }

  // ----- which waiter is woken -----

  /**
   From `k` to `k'` exactly the `i`-th waiter leaves the wait list of `s`: nobody
   who waited has a higher priority, and nobody ahead of it an equal one.
   */
  ghost predicate Wakes(k: State, k': State, s: nat, i: nat)
  {
    && s in k.semas && s in k'.semas && i < |k.semas[s].waiters|
    && var w, left := k.semas[s].waiters, k'.semas[s].waiters;
       && (forall x :: x in left <==> x in w && x != w[i]) && |left| == |w| - 1
       && (forall j :: 0 <= j < |w| ==> w[j] in k.threads)
       && (forall j :: 0 <= j < |w| ==> k.threads[w[j]].priority <= k.threads[w[i]].priority)
       && (forall j :: 0 <= j < i ==> k.threads[w[j]].priority < k.threads[w[i]].priority)
  }

  lemma WakesHighest(k: State, s: nat) returns (i: nat)
    requires Valid(k) && s in k.semas && k.semas[s].waiters != []
    ensures Wakes(k, WakeWaiter(k, s), s, i)
    ensures var t, k' := k.semas[s].waiters[i], WakeWaiter(k, s);
            && t in k'.threads && k'.threads[t].status == Ready && t in k'.ready && k'.threads[t].place == InDown(s)
            && forall u :: u in k.threads && u != t ==> k'.threads[u] == k.threads[u]
  {
    hide Valid, SortBy, InsertBy;
    var p := ByPriority(k.threads);
    WakeWaiterFacts(k, s);
    i := HeadOfSort(k.semas[s].waiters, p);
    WaitersKnown(k, s);
    InsertElems(k.ready, k.semas[s].waiters[i], p);
  }

  lemma WaitersKnown(k: State, s: nat)
    requires Valid(k) && s in k.semas
    ensures forall j :: 0 <= j < |k.semas[s].waiters| ==> k.semas[s].waiters[j] in k.threads
  {
    assert InList(k, k.semas[s].waiters, Blocked);
  }

  /** Nothing but queues and statuses differs. */
  ghost predicate OnlySwitched(k: State, k': State)
  {
    && k'.semas == k.semas && k'.history == k.history && k'.now == k.now && k'.idle == k.idle
    && k'.threads.Keys == k.threads.Keys
    && forall t :: t in k.threads ==> k'.threads[t] == k.threads[t].(status := k'.threads[t].status)
  }

  lemma ScheduleOnlySwitches(k: State)
    ensures OnlySwitched(k, Schedule(k))
  {
    hide InsertBy;
    assert OnlySwitched(k, WakeOne(k));
    assert OnlySwitched(WakeOne(k), Dispatch(WakeOne(k)));
  }

  lemma IfYieldOnlySwitches(k: State)
    requires k.running in k.threads
    ensures OnlySwitched(k, IfYield(k)) && OnlySwitched(k, Yield(k))
  {
    hide InsertBy, SortBy, Schedule, OnlySwitched;
    var k1 := SortReady(k);
    YieldOnlySwitches(k);
    YieldOnlySwitches(k1);
    SortedSwitched(k, Yield(k1));
  }

  lemma YieldOnlySwitches(k: State)
    requires k.running in k.threads
    ensures OnlySwitched(k, Yield(k))
  {
    hide InsertBy, Schedule;
    ScheduleOnlySwitches(ParkReady(k));
  }

  lemma SortedSwitched(k: State, k': State)
    ensures OnlySwitched(k, SortReady(k)) && (OnlySwitched(SortReady(k), k') ==> OnlySwitched(k, k'))
  {
    hide SortBy;
  }

  /** `sema_up` as a whole: the highest and earliest waiter has been woken and has not looked at the value yet. */
  lemma UpWakesHighest(k: State, s: nat, interrupt: bool) returns (i: nat)
    requires Valid(k) && s in k.semas && s in k.history && k.semas[s].waiters != []
    ensures Wakes(k, Up(k, s, interrupt), s, i)
    ensures k.semas[s].waiters[i] in Woken(Up(k, s, interrupt), s)
  {
    hide Valid, WakeWaiter, SortBy, IfYield;
    i := WakesHighest(k, s);
    ValidRunning(k);
    IfYieldOnlySwitches(Increment(WakeWaiter(k, s), s));
  }

  lemma ValidRunning(k: State)
    requires Valid(k)
    ensures k.running in k.threads
  {
  }

  // ----- what a step changes -----

  /** The value of semaphore `s` after an enabled operation. */
  function ValueAfter(k: State, op: Op, s: nat): int
    requires s in k.semas || op.DoNewSema?
  {
    match op
    case DoNewSema(r, value, _) => if r == s then value else if s in k.semas then k.semas[s].value else 0
    case DoDown(r) => if r == s && k.semas[s].value > 0 then k.semas[s].value - 1 else k.semas[s].value
    case DoTryDown(r) => if r == s && k.semas[s].value > 0 then k.semas[s].value - 1 else k.semas[s].value
    case DoUp(r) => if r == s then k.semas[s].value + 1 else k.semas[s].value
    case DoUpInterrupt(r) => if r == s then k.semas[s].value + 1 else k.semas[s].value
    case _ => k.semas[s].value
  }

  /** The priority of thread `t` after an enabled operation. */
  function PriorityAfter(k: State, op: Op, t: nat): int
    requires t in k.threads || op.DoCreate?
  {
    match op
    case DoReprioritise(p) => if t in p then p[t] else k.threads[t].priority
    case DoCreate(u, p) => if u == t then p else if t in k.threads then k.threads[t].priority else 0
    case _ => k.threads[t].priority
  }

  /** From `k` to `k'`, values, priorities, threads and the clock change exactly as the operation says. */
  ghost predicate Effects(k: State, op: Op, k': State)
  {
    && k'.now == (if op.DoTick? then k.now + 1 else k.now)
    && k'.semas.Keys == k.semas.Keys + (if op.DoNewSema? then {op.sema} else {})
    && (forall s :: s in k'.semas ==> k'.semas[s].value == ValueAfter(k, op, s))
    && k'.threads.Keys == (if op.DoCreate? then k.threads.Keys + {op.thread}
                           else if op.DoExit? then k.threads.Keys - {k.running} else k.threads.Keys)
    && (forall t :: t in k'.threads ==> k'.threads[t].priority == PriorityAfter(k, op, t))
  }

  lemma SwitchKeepsEffects(k: State, op: Op, k1: State, k': State)
    requires Effects(k, op, k1) && OnlySwitched(k1, k')
    ensures Effects(k, op, k')
  {
    hide ValueAfter, PriorityAfter;
  }

  /** Every enabled operation has exactly its own effects, whatever is switched. */
  lemma StepEffects(k: State, op: Op)
    requires k.running in k.threads && Enabled(k, op)
    ensures Effects(k, op, Step(k, op))
  {
    hide Schedule, IfYield, Yield, Effects, OnlySwitched, Up, Create, Sleep, Down, TryDown, IdleBlock, Exit;
    match op
    case DoDown(s) => DownEffects(k, s);
    case DoTryDown(s) => TryEffects(k, s);
    case DoUp(s) => UpEffects(k, s, false);
    case DoUpInterrupt(s) => UpEffects(k, s, true);
    case DoYield => QuietEffects(k, op, k); IfYieldOnlySwitches(k); SwitchKeepsEffects(k, op, k, Yield(k));
    case DoIfYield => QuietEffects(k, op, k); IfYieldOnlySwitches(k); SwitchKeepsEffects(k, op, k, IfYield(k));
    case DoSleep(ticks) => SleepEffects(k, ticks);
    case DoCreate(t, p) => CreateEffects(k, t, p);
    case DoExit => ExitEffects(k);
    case DoIdle => IdleEffects(k);
    case DoReprioritise(p) => ReprioritiseEffects(k, p);
    case DoNewSema(s, value, isLock) => NewSemaEffects(k, s, value, isLock);
    case DoTick => TickEffects(k);
  }

  lemma QuietEffects(k: State, op: Op, k': State)
    requires op.DoYield? || op.DoIfYield? || op.DoSleep? || op.DoIdle?
    requires k'.now == k.now && k'.semas == k.semas && k'.threads.Keys == k.threads.Keys
    requires forall t :: t in k.threads ==> k'.threads[t].priority == k.threads[t].priority
    ensures Effects(k, op, k')
  {
  }

  lemma DownEffects(k: State, s: nat)
    requires k.running in k.threads && s in k.semas && s in k.history
    ensures Effects(k, DoDown(s), Down(k, s))
  {
    hide Schedule, InsertBy, OnlySwitched;
    if k.semas[s].value == 0 {
      ScheduleOnlySwitches(ParkWaiting(k, s));
      SwitchKeepsEffects(k, DoDown(s), ParkWaiting(k, s), Down(k, s));
    }
  }

  lemma TryEffects(k: State, s: nat)
    requires k.running in k.threads && s in k.semas && s in k.history
    ensures Effects(k, DoTryDown(s), TryDown(k, s))
  {
  }

  lemma UpEffects(k: State, s: nat, interrupt: bool)
    requires k.running in k.threads && s in k.semas && s in k.history
    ensures Effects(k, if interrupt then DoUpInterrupt(s) else DoUp(s), Up(k, s, interrupt))
  {
    hide IfYield, WakeWaiter, SortBy, OnlySwitched;
    var op := if interrupt then DoUpInterrupt(s) else DoUp(s);
    var k1 := Increment(WakeWaiter(k, s), s);
    WakeWaiterEffects(k, s);
    assert Effects(k, op, k1);
    IfYieldOnlySwitches(k1);
    SwitchKeepsEffects(k, op, k1, IfYield(k1));
  }

  lemma SleepEffects(k: State, ticks: nat)
    requires k.running in k.threads
    ensures Effects(k, DoSleep(ticks), Sleep(k, ticks))
  {
    hide Schedule, InsertBy, OnlySwitched, Effects;
    var p := ParkAsleep(k, ticks);
    QuietEffects(k, DoSleep(ticks), k);
    QuietEffects(k, DoSleep(ticks), p);
    ScheduleOnlySwitches(p);
    SwitchKeepsEffects(k, DoSleep(ticks), p, Schedule(p));
  }

  lemma CreateEffects(k: State, t: nat, priority: int)
    requires k.running in k.threads && t !in k.threads
    ensures Effects(k, DoCreate(t, priority), Create(k, t, priority))
  {
    hide IfYield, InsertBy, OnlySwitched;
    var k1 := Created(k, t, priority);
    assert Effects(k, DoCreate(t, priority), k1);
    IfYieldOnlySwitches(k1);
    SwitchKeepsEffects(k, DoCreate(t, priority), k1, IfYield(k1));
  }

  lemma ExitEffects(k: State)
    requires k.running in k.threads
    ensures Effects(k, DoExit, Exit(k))
  {
    hide Schedule, OnlySwitched;
    var k1 := k.(threads := k.threads - {k.running});
    assert Effects(k, DoExit, k1);
    ScheduleOnlySwitches(k1);
    SwitchKeepsEffects(k, DoExit, k1, Schedule(k1));
  }

  lemma IdleEffects(k: State)
    requires k.running in k.threads
    ensures Effects(k, DoIdle, IdleBlock(k))
  {
    hide Schedule, OnlySwitched, Effects;
    var k1 := SetStatus(k, k.running, Blocked);
    QuietEffects(k, DoIdle, k1);
    ScheduleOnlySwitches(k1);
    SwitchKeepsEffects(k, DoIdle, k1, Schedule(k1));
  }

  lemma ReprioritiseEffects(k: State, p: map<nat, int>)
    ensures Effects(k, DoReprioritise(p), Reprioritise(k, p))
  {
  }

  lemma NewSemaEffects(k: State, s: nat, value: nat, isLock: bool)
    ensures Effects(k, DoNewSema(s, value, isLock), NewSema(k, s, value, isLock))
  {
  }

  lemma TickEffects(k: State)
    ensures Effects(k, DoTick, k.(now := k.now + 1))
  {
  }

  lemma WakeWaiterEffects(k: State, s: nat)
    requires s in k.semas
    ensures var k' := WakeWaiter(k, s);
            && k'.now == k.now && (forall r :: r in k.semas ==> k'.semas[r].value == k.semas[r].value)
            && (forall t :: t in k.threads ==> k'.threads[t].priority == k.threads[t].priority)
  {
  }

  // ----- how long a sleeper sleeps -----

  /** Right after `thread_sleep` the thread is asleep until `now + ticks`, unless the same switch found it due. */
  lemma SleepRecorded(k: State, ticks: int)
    requires Valid(k) && k.running != k.idle
    ensures var k', t := Sleep(k, ticks), k.running;
            && k'.now == k.now && t in k'.threads
            && (t in k'.sleeping ==> k'.threads[t].status == Sleeping && k'.threads[t].wakeTime == k.now + ticks)
            && (t !in k'.sleeping ==> ticks <= 0)
  {
    hide Agree, SemasOk, SleepersSorted, InsertBy, WakeOne, Dispatch;
    var t, p := k.running, ParkAsleep(k, ticks);
    SleepParked(k, ticks);
    InsertElems(k.sleeping, t, ByWakeTime(p.threads));
    var i :| 0 <= i < |p.sleeping| && p.sleeping[i] == t;
    WakeOneMoves(p, t, i);
    WakeOneKeeps(p);
    DispatchSleeper(WakeOne(p), t);
    ScheduleOnlySwitches(p);
    ScheduleKeeps(p);
    QueueStatus(Sleep(k, ticks), t);
  }

  /**
   Over every run: a thread that asked to sleep for `ticks` is still asleep, or
   the clock has advanced by at least `ticks`.
   */
  lemma {:induction false} SleepsLongEnough(k: State, ops: seq<Op>, m: nat, n: nat)
    requires Valid(k) && m < n <= |ops| && ops[m].DoSleep?
    requires var a := After(k, ops, m); a.running != a.idle && Enabled(a, ops[m])
    ensures var a, b := After(k, ops, m), After(k, ops, n);
            var t, due := a.running, a.now + ops[m].ticks;
            && (t !in b.sleeping ==> b.now >= due)
            && (b.now >= due || (t in b.sleeping && t in b.threads && b.threads[t].status == Sleeping && b.threads[t].wakeTime == due))
  {
    hide Valid, Step, Calls, Sleep, Agree;
    var a := After(k, ops, m);
    if n == m + 1 {
      ValidRunning(a);
      SleepRecorded(a, ops[m].ticks);
      SleepIsStep(a, ops[m].ticks);
    } else {
      SleepsLongEnough(k, ops, m, n - 1);
      StillAsleep(After(k, ops, n - 1), ops[n - 1], a.running, a.now + ops[m].ticks);
    }
  }

  lemma SleepIsStep(k: State, ticks: nat)
    requires k.running in k.threads && Enabled(k, DoSleep(ticks))
    ensures Step(k, DoSleep(ticks)) == Sleep(k, ticks)
  {
  }

  /** One step of a sleeper that is not due. */
  lemma StillAsleep(k: State, op: Op, t: nat, due: int)
    requires Valid(k)
    requires k.now >= due || (t in k.sleeping && t in k.threads && k.threads[t].wakeTime == due)
    ensures var k' := Step(k, op);
            k'.now >= due || (t in k'.sleeping && t in k'.threads && k'.threads[t].status == Sleeping && k'.threads[t].wakeTime == due)
  {
    hide Agree, SemasOk, SleepersSorted, Step, Calls;
    StepKeeps(k, op);
    QueueStatus(Step(k, op), t);
    if Enabled(k, op) { StepEffects(k, op); } else { NoStep(k, op); }
    if k.now < due {
      var i :| 0 <= i < |k.sleeping| && k.sleeping[i] == t;
      StepAdvances(k, op, t, i);
    }
  }

  lemma NoStep(k: State, op: Op)
    requires k.running in k.threads && !Enabled(k, op)
    ensures Step(k, op) == k
  {
  }
}
