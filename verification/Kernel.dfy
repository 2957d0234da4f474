/**
 The scheduler and semaphore code, with the kernel's lists and thread fields
 updated in place. Each method is proved to perform exactly the step of the
 state machine in `Scheduling`, where the properties of runs are proved.
 */
module Kernel {
  import opened Scheduling
  import opened SchedulerLaws

  lemma {:induction false} InsertIs(s: seq<nat>, t: nat, key: Key, k: nat)
    requires k <= |s| && (forall j :: 0 <= j < k ==> At(key, s[j]) >= At(key, t)) && (k < |s| ==> At(key, s[k]) < At(key, t))
    ensures InsertBy(s, t, key) == s[..k] + [t] + s[k..]
  {
    if k > 0 {
      InsertIs(s[1..], t, key, k - 1);
    }
  }

  method ListInsertOrdered(s: seq<nat>, t: nat, key: Key) returns (r: seq<nat>)
    ensures r == InsertBy(s, t, key)
  {
    var k := 0;
    while k < |s| && At(key, s[k]) >= At(key, t)
      invariant 0 <= k <= |s|
      invariant forall j :: 0 <= j < k ==> At(key, s[j]) >= At(key, t)
    {
      k := k + 1;
    }
    InsertIs(s, t, key, k);
    r := s[..k] + [t] + s[k..];
  }

  method ListSort(s: seq<nat>, key: Key) returns (r: seq<nat>)
    ensures r == SortBy(s, key)
  {
    r := [];
    var e := 0;
    while e < |s|
      invariant 0 <= e <= |s| && r == SortBy(s[..e], key)
    {
      assert s[..e + 1][..e] == s[..e];
      r := ListInsertOrdered(r, s[e], key);
      e := e + 1;
    }
    assert s[..e] == s;
  }

  class Kernel {
    var threads: map<nat, Tcb>
    var ready: seq<nat>
    var sleeping: seq<nat>
    var semas: map<nat, Sema>
    var running: nat
    const idle: nat
    var now: int
    ghost var history: map<nat, History>

    ghost function Snapshot(): State
      reads this
    {
      State(threads, ready, sleeping, semas, history, running, idle, now)
    }

    /** A kernel with the initial thread running and the idle thread blocked. */
    constructor (main: nat, idle: nat)
      requires main != idle
      ensures Valid(Snapshot()) && running == main && this.idle == idle && semas == map[] && now == 0
    {
      threads := map[main := Tcb(Running, 31, 0, Outside), idle := Tcb(Blocked, 0, 0, Outside)];
      ready, sleeping, semas, history := [], [], map[], map[];
      running, this.idle, now := main, idle, 0;
    }

    method SetThreadStatus(t: nat, status: Status)
      requires t in threads
      modifies this`threads
      ensures Snapshot() == SetStatus(old(Snapshot()), t, status)
    {
      threads := threads[t := threads[t].(status := status)];
    }

    /** `schedule`: wake at most one due sleeper, then switch to the next thread. */
    method Reschedule()
      requires Parked(Snapshot())
      modifies this
      ensures Snapshot() == Schedule(old(Snapshot())) && Valid(Snapshot())
    {
      hide Agree, SemasOk, SleepersSorted, InsertBy;
      ghost var k := Snapshot();
      ScheduleKeeps(k);
      QueueStatus(k, idle);
      if sleeping != [] {
        var t := sleeping[0];
        assert t in k.sleeping;
        if now >= threads[t].wakeTime {
          sleeping := sleeping[1..];
          ready := ListInsertOrdered(ready, t, ByPriority(threads));
          SetThreadStatus(t, Ready);
        }
      }
      assert Snapshot() == WakeOne(k);
      WakeOneKeeps(k);
      QueueStatus(Snapshot(), idle);
      if ready == [] {
        running := idle;
      } else {
        assert ready[0] in Snapshot().ready;
        running := ready[0];
        ready := ready[1..];
      }
      SetThreadStatus(running, Running);
    }

    method ThreadYield()
      requires Valid(Snapshot())
      modifies this
      ensures Snapshot() == Yield(old(Snapshot())) && Valid(Snapshot())
    {
      hide Agree, SemasOk, SleepersSorted, InsertBy, Schedule;
      YieldParked(Snapshot());
      var cur := running;
      if cur != idle {
        ready := ListInsertOrdered(ready, cur, ByPriority(threads));
      }
      SetThreadStatus(cur, Ready);
      Reschedule();
    }

    /** `thread_block` as the idle loop calls it. */
    method BlockIdle()
      requires Valid(Snapshot()) && running == idle
      modifies this
      ensures Snapshot() == IdleBlock(old(Snapshot())) && Valid(Snapshot())
    {
      hide Agree, SemasOk, SleepersSorted, Schedule;
      IdleParked(Snapshot());
      SetThreadStatus(running, Blocked);
      Reschedule();
    }

    method ThreadSleep(ticks: int)
      requires Valid(Snapshot())
      modifies this
      ensures Snapshot() == Sleep(old(Snapshot()), ticks) && Valid(Snapshot())
      // asleep until the time asked for, unless that has come already
      ensures old(running) != idle && old(running) in sleeping ==>
                old(running) in threads && threads[old(running)].wakeTime == old(now) + ticks
      ensures old(running) != idle && old(running) !in sleeping ==> ticks <= 0
    {
      hide Agree, SemasOk, SleepersSorted, InsertBy, Schedule;
      if running != idle {
        SleepRecorded(Snapshot(), ticks);
        SleepParked(Snapshot(), ticks);
        threads := threads[running := threads[running].(status := Sleeping, wakeTime := now + ticks)];
        sleeping := ListInsertOrdered(sleeping, running, ByWakeTime(threads));
        Reschedule();
      }
    }

    /** One pass of the loop in `sema_down`; `done` says whether the loop is left. */
    method SemaDown(s: nat) returns (done: bool)
      requires Valid(Snapshot()) && s in semas && s in history && running != idle
      requires threads[running].place == Outside || threads[running].place == InDown(s)
      modifies this
      ensures Snapshot() == Down(old(Snapshot()), s) && Valid(Snapshot())
      ensures done <==> old(semas)[s].value > 0
      ensures semas.Keys == old(semas).Keys && semas[s].value == old(semas)[s].value - if done then 1 else 0
    {
      hide Agree, SemasOk, SleepersSorted, InsertBy, Schedule;
      DownEffects(Snapshot(), s);
      DownKeeps(Snapshot(), s);
      if semas[s].value == 0 {
        WaitParked(Snapshot(), s);
        var waiters := ListInsertOrdered(semas[s].waiters, running, ByPriority(threads));
        semas := semas[s := semas[s].(waiters := waiters)];
        threads := threads[running := threads[running].(status := Blocked, place := InDown(s))];
        Reschedule();
        done := false;
      } else {
        semas := semas[s := semas[s].(value := semas[s].value - 1)];
        threads := threads[running := threads[running].(place := Outside)];
        history := history[s := history[s].(downs := history[s].downs + 1, held := history[s].held + multiset{running})];
        done := true;
      }
    }

    /** `sema_try_down`: counts down without waiting, if it can. */
    method SemaTryDown(s: nat) returns (success: bool)
      requires Valid(Snapshot()) && s in semas && s in history && threads[running].place == Outside
      modifies this
      ensures Snapshot() == TryDown(old(Snapshot()), s) && Valid(Snapshot())
      ensures success <==> old(semas)[s].value > 0
      ensures semas.Keys == old(semas).Keys && semas[s].value == old(semas)[s].value - if success then 1 else 0
    {
      hide Agree, SemasOk, SleepersSorted;
      success := semas[s].value > 0;
      if success {
        CompleteDownKeeps(Snapshot(), s);
        semas := semas[s := semas[s].(value := semas[s].value - 1)];
        threads := threads[running := threads[running].(place := Outside)];
        history := history[s := history[s].(downs := history[s].downs + 1, held := history[s].held + multiset{running})];
      }
    }

    /** `if_yield` outside interrupt context. */
    method YieldIfOutranked()
      requires Valid(Snapshot())
      modifies this
      ensures Snapshot() == IfYield(old(Snapshot())) && Valid(Snapshot())
    {
      hide Agree, SemasOk, SleepersSorted, InsertBy, SortBy, Yield;
      SortReadyKeeps(Snapshot());
      ready := ListSort(ready, ByPriority(threads));
      assert Snapshot() == SortReady(old(Snapshot()));
      if ready != [] && threads[running].priority < At(ByPriority(threads), ready[0]) {
        ThreadYield();
      }
    }

    /** `thread_unblock` of the waiter of highest priority. */
    method WakeHighest(s: nat) returns (ghost i: nat)
      requires Valid(Snapshot()) && s in semas
      modifies this
      ensures Snapshot() == WakeWaiter(old(Snapshot()), s)
      ensures old(semas)[s].waiters != [] ==> Wakes(old(Snapshot()), Snapshot(), s, i) && old(semas)[s].waiters[i] in ready
    {
      hide Agree, SemasOk, SleepersSorted, InsertBy, SortBy, Wakes, Distinct;
      i := 0;
      if semas[s].waiters != [] {
        WakeWaiterFacts(Snapshot(), s);
        i := WakesHighest(Snapshot(), s);
        var sorted := ListSort(semas[s].waiters, ByPriority(threads));
        var t := sorted[0];
        semas := semas[s := semas[s].(waiters := sorted[1..])];
        ready := ListInsertOrdered(ready, t, ByPriority(threads));
        SetThreadStatus(t, Ready);
      }
    }

    /** `sema->value++`; for a lock, the caller stops being its holder. */
    method CountUp(s: nat)
      requires s in semas && s in history
      modifies this
      ensures Snapshot() == Increment(old(Snapshot()), s)
    {
      semas := semas[s := semas[s].(value := semas[s].value + 1)];
      history := history[s := history[s].(ups := history[s].ups + 1,
        held := if history[s].isLock then history[s].held - multiset{running} else history[s].held)];
    }

    /** `sema_up`: wake the waiter of highest priority, count up, and yield if it outranks the caller. */
    method SemaUp(s: nat, interrupt: bool) returns (ghost i: nat)
      requires Valid(Snapshot()) && s in semas && s in history
      requires history[s].isLock ==> running in history[s].held
      modifies this
      ensures Snapshot() == Up(old(Snapshot()), s, interrupt) && Valid(Snapshot())
      ensures semas.Keys == old(semas).Keys && semas[s].value == old(semas)[s].value + 1
      ensures old(semas)[s].waiters != [] ==>
                Wakes(old(Snapshot()), Snapshot(), s, i) && old(semas)[s].waiters[i] in Woken(Snapshot(), s)
    {
      hide Agree, SemasOk, SleepersSorted, InsertBy, SortBy, IfYield, WakeWaiter, Increment;
      ghost var k := Snapshot();
      UpFirstHalf(k, s);
      UpEffects(k, s, interrupt);
      i := 0;
      if semas[s].waiters != [] { i := UpWakesHighest(k, s, interrupt); }
      SortReadyKeeps(Increment(WakeWaiter(k, s), s));
      ghost var woken := WakeHighest(s);
      CountUp(s);
      if interrupt {
        ready := ListSort(ready, ByPriority(threads));
      } else {
        YieldIfOutranked();
      }
    }
  }
}
