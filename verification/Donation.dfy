/**
 Priority donation through nested locks. Threads and locks are objects linked
 by `holder`, `lock_list` and `wait_lock_list`; `T` and `L` are all threads and
 all locks, and nothing is assumed about the shape of the wait-for graph.
 */
module Donation {

  function Max(a: int, b: int): int { if a < b then b else a }

  class Thread {
    var priority: int
    var original: int
    var locks: seq<Lock>    // lock_list: locks held, kept ordered
    var waiting: seq<Lock>  // wait_lock_list: locks asked for and not yet obtained
  }

  class Lock {
    var holder: Thread?
    var priority: int
  }

  // ----- snapshots: the wait-for graph and the priorities on it -----

  datatype Graph = Graph(holder: map<Lock, Thread?>, waiting: map<Thread, seq<Lock>>)

  datatype Levels = Levels(thread: map<Thread, int>, lock: map<Lock, int>)

  ghost function GraphOf(T: set<Thread>, L: set<Lock>): Graph
    reads T`waiting, L`holder
  {
    Graph(map l | l in L :: l.holder, map t | t in T :: t.waiting)
  }

  ghost function LevelsOf(T: set<Thread>, L: set<Lock>): Levels
    reads T`priority, L`priority
  {
    Levels(map t | t in T :: t.priority, map l | l in L :: l.priority)
  }

  /** The graph does not leave its own threads and locks. */
  ghost predicate Closed(g: Graph)
  {
    && (forall l :: l in g.holder && g.holder[l] != null ==> g.holder[l] in g.waiting)
    && (forall t, l :: t in g.waiting && l in g.waiting[t] ==> l in g.holder)
  }

  ghost predicate Fits(g: Graph, v: Levels)
  {
    v.thread.Keys == g.waiting.Keys && v.lock.Keys == g.holder.Keys
  }

  /** Thread `t` holds `l`, or is reached from its holder through at most `n` further waits. */
  ghost predicate ReachIn(g: Graph, l: Lock, t: Thread, n: nat)
    decreases n
  {
    && l in g.holder && g.holder[l] != null
    && var h := g.holder[l];
       h == t || (n > 0 && h in g.waiting && exists m :: m in g.waiting[h] && ReachIn(g, m, t, n - 1))
  }

  ghost predicate Reach(g: Graph, l: Lock, t: Thread)
  {
    exists n: nat :: ReachIn(g, l, t, n)
  }

  /** `t` is reached through a lock that `u` waits for. */
  ghost predicate Behind(g: Graph, u: Thread, t: Thread)
  {
    u in g.waiting && exists m :: m in g.waiting[u] && Reach(g, m, t)
  }

  /** Lock `m` is `l`, or a thread reached from `l` waits for it. */
  ghost predicate OnPath(g: Graph, l: Lock, m: Lock)
  {
    l == m || exists t :: Reach(g, l, t) && t in g.waiting && m in g.waiting[t]
  }

  ghost predicate BehindLock(g: Graph, u: Thread, l: Lock)
  {
    u in g.waiting && exists m :: m in g.waiting[u] && OnPath(g, m, l)
  }

  lemma ReachHolder(g: Graph, l: Lock)
    requires l in g.holder && g.holder[l] != null
    ensures Reach(g, l, g.holder[l])
  {
    assert ReachIn(g, l, g.holder[l], 0);
  }

  lemma ReachThrough(g: Graph, l: Lock, t: Thread)
    requires l in g.holder && g.holder[l] != null && Behind(g, g.holder[l], t)
    ensures Reach(g, l, t)
  {
    var m :| m in g.waiting[g.holder[l]] && Reach(g, m, t);
    var n: nat :| ReachIn(g, m, t, n);
    assert ReachIn(g, l, t, n + 1);
  }

  // ----- what donation achieves, on snapshots -----

  /** A waiter at priority `p` has been heard by lock `l` and by its holder. */
  ghost predicate Heard(g: Graph, v: Levels, l: Lock, p: int)
  {
    l in g.holder && g.holder[l] != null ==>
      l in v.lock && v.lock[l] >= p && g.holder[l] in v.thread && v.thread[g.holder[l]] >= p
  }

  /** Every waiter has been heard. */
  ghost predicate AllHeard(g: Graph, v: Levels)
  {
    forall t, l :: t in g.waiting && t in v.thread && l in g.waiting[t] ==> Heard(g, v, l, v.thread[t])
  }

  /** Thread `t` holds a lock that carries priority `p` or more. */
  ghost predicate Backed(g: Graph, v: Levels, t: Thread, p: int)
  {
    exists l :: l in g.holder && l in v.lock && g.holder[l] == t && v.lock[l] >= p
  }

  /**
   `w` comes from `v` by raising some threads and locks to exactly `p`. Whatever
   a raised thread waits for has heard `p`; a thread is raised only through a
   lock it holds, and a lock only together with its holder.
   */
  ghost predicate Raised(g: Graph, p: int, v: Levels, w: Levels)
  {
    && Fits(g, v) && Fits(g, w)
    && (forall t :: t in v.thread ==> w.thread[t] == v.thread[t] || v.thread[t] < w.thread[t] == p)
    && (forall l :: l in v.lock ==> w.lock[l] == v.lock[l] || v.lock[l] < w.lock[l] == p)
    && (forall t, m :: t in v.thread && w.thread[t] != v.thread[t] && m in g.waiting[t] ==> Heard(g, w, m, p))
    && (forall t :: t in v.thread && w.thread[t] != v.thread[t] ==> Backed(g, w, t, p))
    && (forall l :: l in v.lock && w.lock[l] != v.lock[l] ==> g.holder[l] != null && Heard(g, w, l, p))
  }

  lemma StillHeard(g: Graph, p: int, v: Levels, w: Levels, l: Lock)
    requires Closed(g) && Raised(g, p, v, w) && Heard(g, v, l, p)
    ensures Heard(g, w, l, p)
  {
  }

  lemma StillBacked(g: Graph, p: int, v: Levels, w: Levels, t: Thread)
    requires Raised(g, p, v, w) && Backed(g, v, t, p)
    ensures Backed(g, w, t, p)
  {
    var l :| l in g.holder && l in v.lock && g.holder[l] == t && v.lock[l] >= p;
    assert w.lock[l] >= p;
  }

  lemma RaisedTwice(g: Graph, p: int, u: Levels, v: Levels, w: Levels)
    requires Closed(g) && Raised(g, p, u, v) && Raised(g, p, v, w)
    ensures Raised(g, p, u, w)
  {
    hide Heard, Backed;
    forall t, m | t in u.thread && w.thread[t] != u.thread[t] && m in g.waiting[t] ensures Heard(g, w, m, p) {
      if w.thread[t] == v.thread[t] { StillHeard(g, p, v, w, m); }
    }
    forall t | t in u.thread && w.thread[t] != u.thread[t] ensures Backed(g, w, t, p) {
      if w.thread[t] == v.thread[t] { StillBacked(g, p, v, w, t); }
    }
    forall l | l in u.lock && w.lock[l] != u.lock[l] ensures g.holder[l] != null && Heard(g, w, l, p) {
      if w.lock[l] == v.lock[l] { StillHeard(g, p, v, w, l); }
    }
  }

  /** The holder of `l` and the lock itself raised to `p`, before its own waits are served. */
  function Lifted(v: Levels, l: Lock, h: Thread, p: int): Levels
    requires l in v.lock && h in v.thread
  {
    Levels(v.thread[h := Max(v.thread[h], p)], v.lock[l := Max(v.lock[l], p)])
  }

  lemma LiftedThenServed(g: Graph, p: int, v: Levels, w: Levels, l: Lock, h: Thread)
    requires Closed(g) && Fits(g, v) && l in g.holder && g.holder[l] == h && h in g.waiting
    requires Raised(g, p, Lifted(v, l, h, p), w)
    requires v.thread[h] < p ==> forall m :: m in g.waiting[h] ==> Heard(g, w, m, p)
    ensures Raised(g, p, v, w) && Heard(g, w, l, p)
  {
    hide Heard, Backed;
    var u := Lifted(v, l, h, p);
    HeardAfterLift(g, p, v, l, h);
    StillHeard(g, p, u, w, l);
    StillBacked(g, p, u, w, h);
    assert forall m :: m in v.lock && m != l ==> u.lock[m] == v.lock[m];
    assert forall t :: t in v.thread && t != h ==> u.thread[t] == v.thread[t];
  }

  lemma HeardAfterLift(g: Graph, p: int, v: Levels, l: Lock, h: Thread)
    requires Fits(g, v) && l in g.holder && g.holder[l] == h && h in g.waiting
    ensures Heard(g, Lifted(v, l, h, p), l, p) && Backed(g, Lifted(v, l, h, p), h, p)
  {
    assert Lifted(v, l, h, p).lock[l] >= p;
  }

  /** Threads that a donation of `p` could still raise. */
  ghost function Below(v: Levels, p: int): set<Thread>
  {
    set t | t in v.thread && v.thread[t] < p
  }

  /** Along satisfied waits, priority `p` reaches everyone. */
  lemma {:induction false} HeardAlong(g: Graph, w: Levels, l: Lock, t: Thread, n: nat, p: int)
    requires Closed(g) && Fits(g, w) && AllHeard(g, w) && Heard(g, w, l, p) && ReachIn(g, l, t, n)
    ensures t in w.thread && w.thread[t] >= p
    decreases n
  {
    var h := g.holder[l];
    if h != t {
      var m :| m in g.waiting[h] && ReachIn(g, m, t, n - 1);
      assert Heard(g, w, m, w.thread[h]);
      HeardAlong(g, w, m, t, n - 1, p);
    }
  }

  /**
   Why the early cut-off is right. If every waiter but the new one had been heard,
   then after `donate_lock` exactly the threads down the wait-for graph have
   `max (old, p)`, no other thread has changed, and every waiter has been heard.
   */
  lemma CutOffIsFullDonation(g: Graph, v: Levels, w: Levels, lock: Lock, cur: Thread)
    requires Closed(g) && Fits(g, v) && lock in g.holder && cur in g.waiting
    requires forall t, l :: t in g.waiting && l in g.waiting[t] && (t, l) != (cur, lock) ==> Heard(g, v, l, v.thread[t])
    requires Raised(g, v.thread[cur], v, w) && Heard(g, w, lock, v.thread[cur])
    requires forall t :: t in v.thread && w.thread[t] != v.thread[t] ==> Reach(g, lock, t)
    ensures AllHeard(g, w)
    ensures forall t :: t in v.thread ==>
              w.thread[t] == if Reach(g, lock, t) then Max(v.thread[t], v.thread[cur]) else v.thread[t]
  {
    hide Reach, ReachIn;
    var p := v.thread[cur];
    forall t, l | t in g.waiting && l in g.waiting[t] ensures Heard(g, w, l, w.thread[t]) {
      if w.thread[t] == v.thread[t] && (t, l) != (cur, lock) {
        assert Heard(g, v, l, v.thread[t]);
      }
    }
    forall t | t in v.thread && Reach(g, lock, t) ensures w.thread[t] >= p { ReachHears(g, w, lock, t, p); }
  }

  lemma ReachHears(g: Graph, w: Levels, l: Lock, t: Thread, p: int)
    requires Closed(g) && Fits(g, w) && AllHeard(g, w) && Heard(g, w, l, p) && Reach(g, l, t)
    ensures t in w.thread && w.thread[t] >= p
  {
    var n: nat :| ReachIn(g, l, t, n);
    HeardAlong(g, w, l, t, n, p);
  }

  /** Thread `t` runs at the maximum of `base` and the priorities of the locks it holds. */
  ghost predicate Effective(g: Graph, v: Levels, t: Thread, base: int)
  {
    && t in v.thread && v.thread[t] >= base
    && (forall l :: l in g.holder && g.holder[l] == t ==> l in v.lock && v.lock[l] <= v.thread[t])
    && (v.thread[t] == base || Backed(g, v, t, v.thread[t]))
  }

  lemma RaisedKeepsEffective(g: Graph, p: int, v: Levels, w: Levels, t: Thread, base: int)
    requires Raised(g, p, v, w) && Effective(g, v, t, base)
    ensures Effective(g, w, t, base)
  {
    forall l | l in g.holder && g.holder[l] == t ensures w.lock[l] <= w.thread[t] {
      assert v.lock[l] <= v.thread[t];
      if w.lock[l] != v.lock[l] { assert Heard(g, w, l, p); }
    }
    if w.thread[t] == v.thread[t] && v.thread[t] != base {
      var l :| l in g.holder && l in v.lock && g.holder[l] == t && v.lock[l] >= v.thread[t];
      assert w.lock[l] >= w.thread[t];
    }
  }

  // ----- the code -----

  /**
   `donate_lock`. It stops at the first thread whose priority is already high
   enough, and terminates on cyclic graphs because every recursive call is made
   after one more thread has been raised.
   */
  method DonateLock(lock: Lock, cur: Thread, ghost T: set<Thread>, ghost L: set<Lock>)
    requires Closed(GraphOf(T, L)) && lock in L && cur in T
    modifies T`priority, L`priority
    decreases |Below(LevelsOf(T, L), cur.priority)|, 0
    ensures cur.priority == old(cur.priority)
    ensures Raised(GraphOf(T, L), cur.priority, old(LevelsOf(T, L)), LevelsOf(T, L))
    ensures Heard(GraphOf(T, L), LevelsOf(T, L), lock, cur.priority)
    // only threads and locks down the wait-for graph are raised
    ensures forall t :: t in T && t.priority != old(t.priority) ==> Reach(GraphOf(T, L), lock, t)
    ensures forall l :: l in L && l.priority != old(l.priority) ==> OnPath(GraphOf(T, L), lock, l)
  {
    hide Reach, Raised, Heard, Behind, OnPath, BehindLock, LevelsOf, Below;
    ghost var g, v := GraphOf(T, L), LevelsOf(T, L);
    if lock.holder != null {
      var t := lock.holder;
      ghost var p := cur.priority;
      assert lock in g.holder && g.holder[lock] == t;
      LevelsFit(T, L);
      var raised := LiftHolder(lock, cur, T, L);
      ghost var u := LevelsOf(T, L);
      if raised {
        FewerBelow(v, u, t, p);
        DonateWaits(t, T, L);
      } else {
        NothingRaised(g, p, u);
      }
      ReachAll(g, lock);
      LiftedThenServed(g, p, v, LevelsOf(T, L), lock, t);
      HighStays(g, p, v, LevelsOf(T, L), cur);
      LevelsFit(T, L);
    } else {
      LevelsFit(T, L);
      NothingRaised(g, cur.priority, v);
      UnheldIsHeard(g, v, lock, cur.priority);
    }
  }

  /** Raises the lock and its holder where they are too low; says whether the holder was. */
  method LiftHolder(lock: Lock, cur: Thread, ghost T: set<Thread>, ghost L: set<Lock>) returns (raised: bool)
    requires lock in L && cur in T && lock.holder != null && lock.holder in T
    modifies T`priority, L`priority
    ensures lock in old(LevelsOf(T, L)).lock && lock.holder in old(LevelsOf(T, L)).thread
    ensures LevelsOf(T, L) == Lifted(old(LevelsOf(T, L)), lock, lock.holder, old(cur.priority))
    ensures raised <==> old(lock.holder.priority) < old(cur.priority)
    ensures cur.priority == old(cur.priority)
    ensures raised ==> lock.holder.priority == cur.priority
    ensures forall x :: x in T && x != lock.holder ==> x.priority == old(x.priority)
    ensures !raised ==> lock.holder.priority == old(lock.holder.priority)
    ensures forall l :: l in L && l != lock ==> l.priority == old(l.priority)
  {
    var t := lock.holder;
    raised := false;
    if lock.priority < cur.priority { lock.priority := cur.priority; }
    if t.priority < cur.priority {
      t.priority := cur.priority;
      raised := true;
    }
  }

  /** The loop of `donate_lock` over the locks that a raised thread waits for. */
  method DonateWaits(t: Thread, ghost T: set<Thread>, ghost L: set<Lock>)
    requires Closed(GraphOf(T, L)) && t in T
    modifies T`priority, L`priority
    decreases |Below(LevelsOf(T, L), t.priority)|, 1
    ensures t.priority == old(t.priority)
    ensures Raised(GraphOf(T, L), t.priority, old(LevelsOf(T, L)), LevelsOf(T, L))
    ensures forall m :: m in t.waiting ==> Heard(GraphOf(T, L), LevelsOf(T, L), m, t.priority)
    ensures forall u :: u in T && u.priority != old(u.priority) ==> Behind(GraphOf(T, L), t, u)
    ensures forall l :: l in L && l.priority != old(l.priority) ==> BehindLock(GraphOf(T, L), t, l)
  {
    hide Reach, Raised, Heard, Behind, OnPath, BehindLock;
    ghost var g, v, p := GraphOf(T, L), LevelsOf(T, L), t.priority;
    NothingRaised(g, p, v);
    var e := 0;
    while e < |t.waiting|
      invariant 0 <= e <= |t.waiting| && t.priority == p
      invariant Raised(g, p, v, LevelsOf(T, L))
      invariant forall j :: 0 <= j < e ==> Heard(g, LevelsOf(T, L), t.waiting[j], p)
      invariant forall u :: u in T && u.priority != old(u.priority) ==> Behind(g, t, u)
      invariant forall l :: l in L && l.priority != old(l.priority) ==> BehindLock(g, t, l)
    {
      ghost var u := LevelsOf(T, L);
      assert t.waiting[e] in g.waiting[t] && t.waiting[e] in g.holder;
      NoMoreBelow(g, v, u, p);
      label before:
      DonateLock(t.waiting[e], t, T, L);
      forall j | 0 <= j < e ensures Heard(g, LevelsOf(T, L), t.waiting[j], p) {
        StillHeard(g, p, u, LevelsOf(T, L), t.waiting[j]);
      }
      RaisedTwice(g, p, v, u, LevelsOf(T, L));
      BehindVia(g, t, t.waiting[e]);
      e := e + 1;
    }
  }

  lemma LevelsFit(T: set<Thread>, L: set<Lock>)
    ensures Fits(GraphOf(T, L), LevelsOf(T, L))
    ensures forall t :: t in T ==> t in LevelsOf(T, L).thread && LevelsOf(T, L).thread[t] == t.priority
    ensures LevelsOf(T, L).thread.Keys == T && LevelsOf(T, L).lock.Keys == L
    ensures forall l :: l in L ==> LevelsOf(T, L).lock[l] == l.priority
  {
  }

  lemma ReachAll(g: Graph, l: Lock)
    requires l in g.holder && g.holder[l] != null
    ensures Reach(g, l, g.holder[l]) && forall t :: Behind(g, g.holder[l], t) ==> Reach(g, l, t)
    ensures OnPath(g, l, l) && forall m :: BehindLock(g, g.holder[l], m) ==> OnPath(g, l, m)
  {
    ReachHolder(g, l);
    forall t | Behind(g, g.holder[l], t) ensures Reach(g, l, t) { ReachThrough(g, l, t); }
    forall m | BehindLock(g, g.holder[l], m) ensures OnPath(g, l, m) {
      var k :| k in g.waiting[g.holder[l]] && OnPath(g, k, m);
      if k != m {
        var t :| Reach(g, k, t) && t in g.waiting && m in g.waiting[t];
        assert Behind(g, g.holder[l], t);
        ReachThrough(g, l, t);
      }
    }
  }

  lemma NothingRaised(g: Graph, p: int, v: Levels)
    requires Fits(g, v)
    ensures Raised(g, p, v, v)
  {
  }

  lemma HighStays(g: Graph, p: int, v: Levels, w: Levels, t: Thread)
    requires Raised(g, p, v, w) && t in v.thread && v.thread[t] >= p
    ensures w.thread[t] == v.thread[t]
  {
  }

  lemma UnheldIsHeard(g: Graph, v: Levels, l: Lock, p: int)
    requires l in g.holder && g.holder[l] == null
    ensures Heard(g, v, l, p)
  {
  }

  lemma BehindVia(g: Graph, t: Thread, m: Lock)
    requires t in g.waiting && m in g.waiting[t]
    ensures forall u :: Reach(g, m, u) ==> Behind(g, t, u)
    ensures forall l :: OnPath(g, m, l) ==> BehindLock(g, t, l)
  {
  }

  lemma FewerBelow(v: Levels, u: Levels, t: Thread, p: int)
    requires t in v.thread && v.thread[t] < p && u.thread == v.thread[t := p]
    ensures |Below(u, p)| < |Below(v, p)|
  {
    assert Below(u, p) == Below(v, p) - {t};
  }

  lemma NoMoreBelow(g: Graph, v: Levels, u: Levels, p: int)
    requires Raised(g, p, v, u)
    ensures |Below(u, p)| <= |Below(v, p)|
  {
    assert Below(u, p) <= Below(v, p);
    SubsetSize(Below(u, p), Below(v, p));
  }

  lemma {:induction false} SubsetSize<X>(a: set<X>, b: set<X>)
    requires a <= b
    ensures |a| <= |b|
    decreases a
  {
    if x :| x in a {
      SubsetSize(a - {x}, b - {x});
    }
  }
}
