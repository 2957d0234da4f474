/**
 `lock_acquire`, `lock_release` and `thread_set_priority` on top of donation.
 Each method is one step taken with interrupts off; `lock_acquire` is two,
 because the thread may sleep in `sema_down` between them.
 */
module Locks {
  import opened Donation

  // ----- Pintos ordered lists, highest priority first -----

  ghost predicate Sorted(s: seq<Lock>)
    reads s
  {
    forall j, k :: 0 <= j < k < |s| ==> s[j].priority >= s[k].priority
  }

  ghost predicate Distinct(s: seq<Lock>)
  {
    forall j, k :: 0 <= j < k < |s| ==> s[j] != s[k]
  }

  /** `list_insert_ordered`: before the first smaller element, so after its equals. */
  method InsertOrdered(s: seq<Lock>, l: Lock) returns (r: seq<Lock>)
    ensures |r| == |s| + 1
    ensures Sorted(s) ==> Sorted(r)
    ensures forall x :: x in r <==> x in s || x == l
    ensures Distinct(s) && l !in s ==> Distinct(r)
  {
    var k := 0;
    while k < |s| && s[k].priority >= l.priority
      invariant 0 <= k <= |s|
      invariant forall j :: 0 <= j < k ==> s[j].priority >= l.priority
    {
      k := k + 1;
    }
    r := s[..k] + [l] + s[k..];
    Inserted(s, l, k, r);
    if Sorted(s) { assert forall j :: 0 <= j < |r| ==> r[j] == if j < k then s[j] else if j == k then l else s[j - 1]; }
  }

  lemma Inserted(s: seq<Lock>, l: Lock, k: nat, r: seq<Lock>)
    requires k <= |s| && r == s[..k] + [l] + s[k..]
    ensures forall x :: x in r <==> x in s || x == l
    ensures Distinct(s) && l !in s ==> Distinct(r)
  {
    assert s == s[..k] + s[k..];
    forall x | x in s ensures x in r {
      var j :| 0 <= j < |s| && s[j] == x;
      assert r[if j < k then j else j + 1] == x;
    }
    assert r[k] == l;
    if Distinct(s) && l !in s {
      assert forall j :: 0 <= j < |r| ==> r[j] == if j < k then s[j] else if j == k then l else s[j - 1];
    }
  }

  /** `list_sort` with `lock_big`. */
  method SortByPriority(s: seq<Lock>) returns (r: seq<Lock>)
    ensures Sorted(r) && |r| == |s|
    ensures forall x :: x in r <==> x in s
    ensures Distinct(s) ==> Distinct(r)
  {
    r := [];
    var e := 0;
    while e < |s|
      invariant 0 <= e <= |s| && |r| == e && Sorted(r)
      invariant forall x :: x in r <==> x in s[..e]
      invariant Distinct(s) ==> Distinct(r)
    {
      assert s[..e + 1] == s[..e] + [s[e]];
      r := InsertOrdered(r, s[e]);
      e := e + 1;
    }
    assert s[..e] == s;
  }

  // ----- the invariant -----

  /** `lock_list` holds exactly the locks whose holder is the thread. */
  ghost predicate Owned(T: set<Thread>, L: set<Lock>)
    reads T`locks, L`holder
  {
    && (forall t :: t in T ==> Distinct(t.locks))
    && (forall t, l :: t in T && l in t.locks ==> l in L && l.holder == t)
    && (forall t, l :: t in T && l in L && l.holder == t ==> l in t.locks)
  }

  /** Every thread runs at the maximum of its own priority and those of the locks it holds. */
  ghost predicate AllEffective(T: set<Thread>, L: set<Lock>)
    reads T, L
  {
    forall t :: t in T ==> Effective(GraphOf(T, L), LevelsOf(T, L), t, t.original)
  }

  ghost predicate Good(T: set<Thread>, L: set<Lock>)
    reads T, L
  {
    Closed(GraphOf(T, L)) && Owned(T, L) && AllEffective(T, L)
  }

  /** Nobody who waits is outranked by the holder or the lock he waits for. */
  ghost predicate Served(T: set<Thread>, L: set<Lock>)
    reads T, L
  {
    AllHeard(GraphOf(T, L), LevelsOf(T, L))
  }

  // ----- acquire, first half -----

  /** Every waiter except the newest has been heard. */
  ghost predicate HeardBut(g: Graph, v: Levels, cur: Thread, lock: Lock)
  {
    forall t, l :: t in g.waiting && t in v.thread && l in g.waiting[t] && (t, l) != (cur, lock) ==> Heard(g, v, l, v.thread[t])
  }

  function Joined(g: Graph, cur: Thread, lock: Lock): Graph
    requires cur in g.waiting
  {
    g.(waiting := g.waiting[cur := g.waiting[cur] + [lock]])
  }

  /** What `donate_lock` did: from levels `v` to `w`, for the new waiter `cur` of `lock`. */
  ghost predicate Donated(g: Graph, v: Levels, w: Levels, lock: Lock, cur: Thread)
  {
    && cur in v.thread && Raised(g, v.thread[cur], v, w) && Heard(g, w, lock, v.thread[cur])
    && forall t :: t in v.thread && t in w.thread && w.thread[t] != v.thread[t] ==> Reach(g, lock, t)
  }

  lemma NewWait(g: Graph, v: Levels, cur: Thread, lock: Lock)
    requires cur in g.waiting && lock in g.holder
    ensures var h := g.(waiting := g.waiting[cur := g.waiting[cur] + [lock]]);
            && (Closed(g) ==> Closed(h))
            && (forall t, b :: Effective(g, v, t, b) ==> Effective(h, v, t, b))
            && (AllHeard(g, v) ==> HeardBut(h, v, cur, lock))
  {
    var h := g.(waiting := g.waiting[cur := g.waiting[cur] + [lock]]);
    forall t, b | Effective(g, v, t, b) ensures Effective(h, v, t, b) {
      assert Backed(g, v, t, v.thread[t]) ==> Backed(h, v, t, v.thread[t]);
    }
    if AllHeard(g, v) {
      forall t, l | t in h.waiting && t in v.thread && l in h.waiting[t] && (t, l) != (cur, lock)
        ensures Heard(h, v, l, v.thread[t])
      {
        assert l in g.waiting[t];
        assert Heard(g, v, l, v.thread[t]);
      }
    }
  }

  /** `list_push_back (&cur->wait_lock_list, &wait_lock.elem)`. */
  method JoinWaiters(lock: Lock, cur: Thread, ghost T: set<Thread>, ghost L: set<Lock>)
    requires Good(T, L) && lock in L && cur in T
    modifies cur`waiting
    ensures Good(T, L) && cur.waiting == old(cur.waiting) + [lock]
    ensures cur in old(GraphOf(T, L)).waiting && GraphOf(T, L) == Joined(old(GraphOf(T, L)), cur, lock)
    ensures LevelsOf(T, L) == old(LevelsOf(T, L))
    ensures old(Served(T, L)) ==> HeardBut(GraphOf(T, L), LevelsOf(T, L), cur, lock)
  {
    hide Heard, Effective, AllHeard, Closed, HeardBut, GraphOf, LevelsOf, Owned;
    ghost var g, v := GraphOf(T, L), LevelsOf(T, L);
    GraphFields(T, L);
    LevelsFit(T, L);
    NewWait(g, v, cur, lock);
    cur.waiting := cur.waiting + [lock];
    WaitChange(g, lock, cur, T, L);
    LevelsSame(v, T, L);
  }

  lemma GraphFields(T: set<Thread>, L: set<Lock>)
    ensures var g := GraphOf(T, L);
            && g.waiting.Keys == T && g.holder.Keys == L
            && (forall t :: t in T ==> g.waiting[t] == t.waiting) && (forall l :: l in L ==> g.holder[l] == l.holder)
  {
  }

  lemma WaitChange(g: Graph, lock: Lock, cur: Thread, T: set<Thread>, L: set<Lock>)
    requires cur in T && g.waiting.Keys == T && g.holder.Keys == L && cur.waiting == g.waiting[cur] + [lock]
    requires forall t :: t in T && t != cur ==> t.waiting == g.waiting[t]
    requires forall l :: l in L ==> l.holder == g.holder[l]
    ensures GraphOf(T, L) == g.(waiting := g.waiting[cur := g.waiting[cur] + [lock]])
  {
  }

  lemma LevelsSame(v: Levels, T: set<Thread>, L: set<Lock>)
    requires v.thread.Keys == T && v.lock.Keys == L
    requires (forall t :: t in T ==> v.thread[t] == t.priority) && (forall l :: l in L ==> v.lock[l] == l.priority)
    ensures LevelsOf(T, L) == v
  {
  }

  lemma InGraph(T: set<Thread>, L: set<Lock>)
    ensures GraphOf(T, L).waiting.Keys == T && GraphOf(T, L).holder.Keys == L
  {
  }

  /**
   `lock_acquire` up to `sema_down`: the thread joins the waiters and donates.
   If every earlier waiter had been heard, exactly the threads down the wait-for
   graph are raised to at least its priority, and every waiter has been heard.
   */
  method BeginAcquire(lock: Lock, cur: Thread, ghost T: set<Thread>, ghost L: set<Lock>)
    requires Good(T, L) && lock in L && cur in T && lock.holder != cur
    modifies T`priority, L`priority, cur`waiting
    ensures Good(T, L) && cur.waiting == old(cur.waiting) + [lock]
    ensures cur in old(GraphOf(T, L)).waiting && GraphOf(T, L) == Joined(old(GraphOf(T, L)), cur, lock)
    ensures Donated(GraphOf(T, L), old(LevelsOf(T, L)), LevelsOf(T, L), lock, cur)
    ensures old(Served(T, L)) ==> Served(T, L)
    ensures old(Served(T, L)) ==> forall t :: t in T ==>
              t.priority == if Reach(GraphOf(T, L), lock, t) then Max(old(t.priority), old(cur.priority)) else old(t.priority)
  {
    hide Reach, Raised, Heard, Effective, AllHeard, Closed, HeardBut, GraphOf, LevelsOf, Owned;
    LevelsFit(T, L);
    ghost var served := Served(T, L);
    JoinWaiters(lock, cur, T, L);
    ghost var g, v := GraphOf(T, L), LevelsOf(T, L);
    LevelsFit(T, L);
    InGraph(T, L);
    DonateLock(lock, cur, T, L);
    LevelsFit(T, L);
    ghost var w := LevelsOf(T, L);
    forall t | t in T ensures Effective(g, w, t, t.original) {
      RaisedKeepsEffective(g, cur.priority, v, w, t, t.original);
    }
    if served {
      HeardButAll(g, v, cur, lock);
      CutOffIsFullDonation(g, v, w, lock, cur);
    }
  }

  lemma HeardButAll(g: Graph, v: Levels, cur: Thread, lock: Lock)
    requires HeardBut(g, v, cur, lock) && Fits(g, v)
    ensures forall t, l :: t in g.waiting && l in g.waiting[t] && (t, l) != (cur, lock) ==> Heard(g, v, l, v.thread[t])
  {
  }

  // ----- acquire, second half -----

  /** The lock changes from free to held by `cur`, at `base`; `rest` is what `cur` still waits for. */
  function TakenGraph(g: Graph, lock: Lock, cur: Thread, rest: seq<Lock>): Graph
  {
    Graph(g.holder[lock := cur], g.waiting[cur := rest])
  }

  function TakenLevels(v: Levels, lock: Lock, base: int): Levels
  {
    v.(lock := v.lock[lock := base])
  }

  lemma TakenEffective(g: Graph, v: Levels, lock: Lock, cur: Thread, rest: seq<Lock>, base: int, t: Thread, b: int)
    requires lock in g.holder && g.holder[lock] == null && cur in g.waiting && Fits(g, v) && Effective(g, v, t, b)
    requires t == cur ==> b == base
    ensures Effective(TakenGraph(g, lock, cur, rest), TakenLevels(v, lock, base), t, b)
  {
    var h, w := TakenGraph(g, lock, cur, rest), TakenLevels(v, lock, base);
    if v.thread[t] != b {
      var l :| l in g.holder && l in v.lock && g.holder[l] == t && v.lock[l] >= v.thread[t];
      assert l in h.holder && h.holder[l] == t && w.lock[l] >= w.thread[t];
    }
  }

  /** Handing the lock over serves everyone exactly when no other waiter for it outranks the new holder's base. */
  lemma TakenHeardIff(g: Graph, v: Levels, lock: Lock, cur: Thread, rest: seq<Lock>, base: int)
    requires Closed(g) && Fits(g, v) && AllHeard(g, v) && lock in g.holder && g.holder[lock] == null && cur in g.waiting
    requires v.thread[cur] >= base && forall l :: l in rest ==> l in g.waiting[cur]
    ensures var h, w := TakenGraph(g, lock, cur, rest), TakenLevels(v, lock, base);
            AllHeard(h, w) <==> forall t :: t in h.waiting && lock in h.waiting[t] ==> v.thread[t] <= base
  {
    var h, w := TakenGraph(g, lock, cur, rest), TakenLevels(v, lock, base);
    forall t, l | t in h.waiting && l in h.waiting[t] && l != lock ensures Heard(h, w, l, w.thread[t]) {
      assert l in g.waiting[t];
      assert Heard(g, v, l, v.thread[t]);
    }
    forall t | t in h.waiting && lock in h.waiting[t]
      ensures Heard(h, w, lock, w.thread[t]) <==> v.thread[t] <= base
    {
    }
  }

  /** Position of the element pushed by the first half of `lock_acquire`. */
  function LastIndex(s: seq<Lock>, l: Lock): (k: nat)
    requires l in s
    ensures k < |s| && s[k] == l && l !in s[k + 1..]
  {
    if s[|s| - 1] == l then |s| - 1 else LastIndex(s[..|s| - 1], l)
  }

  function Without(s: seq<Lock>, l: Lock): (r: seq<Lock>)
    requires l in s
    ensures forall x :: x in r ==> x in s
  {
    var k := LastIndex(s, l);
    s[..k] + s[k + 1..]
  }

  /** Exactly one entry goes, and the order of the others is kept. */
  lemma WithoutOne(s: seq<Lock>, l: Lock)
    requires l in s
    ensures multiset(Without(s, l)) == multiset(s) - multiset{l} && |Without(s, l)| == |s| - 1
    ensures var k := LastIndex(s, l); Without(s, l) == s[..k] + s[k + 1..]
  {
    hide LastIndex;
    SplitAt(s, l, LastIndex(s, l));
  }

  lemma SplitAt(s: seq<Lock>, l: Lock, k: nat)
    requires k < |s| && s[k] == l
    ensures multiset(s[..k] + s[k + 1..]) == multiset(s) - multiset{l}
  {
    var a, b := s[..k], s[k + 1..];
    SplitOne(a, l, b);
    assert s == a + [l] + b;
  }

  lemma SplitOne(a: seq<Lock>, l: Lock, b: seq<Lock>)
    ensures multiset(a + b) == multiset(a + [l] + b) - multiset{l}
  {
    assert multiset(a + [l] + b) == multiset(a) + multiset{l} + multiset(b);
  }

  /** What the second half of `lock_acquire` removes is what the first half has pushed. */
  lemma WithoutUndoesPush(s: seq<Lock>, l: Lock)
    ensures Without(s + [l], l) == s
  {
    assert (s + [l])[..|s|] == s && (s + [l])[|s| + 1..] == [];
  }

  /**
   `lock_acquire` after `sema_down`: the free lock is taken at the holder's
   original priority. That forgets what the remaining waiters had donated:
   everyone is still served exactly when none of them outranks that priority.
   */
  method FinishAcquire(lock: Lock, cur: Thread, ghost T: set<Thread>, ghost L: set<Lock>) returns (ghost k: nat)
    requires Good(T, L) && lock in L && cur in T && lock.holder == null && lock in cur.waiting
    modifies lock, cur`waiting, cur`locks
    ensures Good(T, L) && lock.holder == cur && lock.priority == cur.original
    // exactly one wait for the lock is removed, the latest one
    ensures cur.waiting == Without(old(cur.waiting), lock) && multiset(cur.waiting) == multiset(old(cur.waiting)) - multiset{lock}
    ensures k < |old(cur.waiting)| && old(cur.waiting)[k] == lock && lock !in old(cur.waiting)[k + 1..]
    ensures cur.waiting == old(cur.waiting)[..k] + old(cur.waiting)[k + 1..]
    ensures GraphOf(T, L) == TakenGraph(old(GraphOf(T, L)), lock, cur, cur.waiting)
    ensures LevelsOf(T, L) == TakenLevels(old(LevelsOf(T, L)), lock, cur.original)
    ensures old(Served(T, L)) ==>
              (Served(T, L) <==> forall t :: t in T && lock in t.waiting ==> t.priority <= cur.original)
  {
    hide Heard, Effective, AllHeard, Closed, Without, LastIndex;
    ghost var g, v := GraphOf(T, L), LevelsOf(T, L);
    ghost var rest, base := Without(cur.waiting, lock), cur.original;
    k := LastIndex(cur.waiting, lock);
    WithoutOne(cur.waiting, lock);
    InGraph(T, L);
    LevelsFit(T, L);
    TakenClosed(g, lock, cur, rest);
    forall t | t in T ensures Effective(TakenGraph(g, lock, cur, rest), TakenLevels(v, lock, base), t, t.original) {
      TakenEffective(g, v, lock, cur, rest, base, t, t.original);
    }
    if AllHeard(g, v) {
      EffectiveAboveBase(g, v, cur, base);
      TakenHeardIff(g, v, lock, cur, rest, base);
    }
    Take(lock, cur, T, L);
  }

  /** `lock_acquire` of a free lock: the thread ends up waiting for nothing it did not wait for before. */
  method AcquireFree(lock: Lock, cur: Thread, ghost T: set<Thread>, ghost L: set<Lock>)
    requires Good(T, L) && lock in L && cur in T && lock.holder == null
    modifies T`priority, L`priority, lock, cur`waiting, cur`locks
    ensures Good(T, L) && lock.holder == cur && lock.priority == cur.original && cur.waiting == old(cur.waiting)
  {
    hide Good, Served, Donated, Without, Reach;
    BeginAcquire(lock, cur, T, L);
    WithoutUndoesPush(old(cur.waiting), lock);
    ghost var k := FinishAcquire(lock, cur, T, L);
  }

  lemma EffectiveAboveBase(g: Graph, v: Levels, t: Thread, b: int)
    requires Effective(g, v, t, b)
    ensures v.thread[t] >= b
  {
  }

  lemma TakenClosed(g: Graph, lock: Lock, cur: Thread, rest: seq<Lock>)
    requires Closed(g) && cur in g.waiting && lock in g.holder && forall l :: l in rest ==> l in g.waiting[cur]
    ensures Closed(TakenGraph(g, lock, cur, rest))
  {
  }

  /** The assignments of synch.c:242-245. */
  method SetHolder(lock: Lock, cur: Thread, ghost T: set<Thread>, ghost L: set<Lock>)
    requires lock in L && cur in T && lock.holder == null && lock in cur.waiting
    modifies lock, cur`waiting
    ensures lock.holder == cur && lock.priority == cur.original
    ensures cur.waiting == Without(old(cur.waiting), lock)
    ensures GraphOf(T, L) == TakenGraph(old(GraphOf(T, L)), lock, cur, cur.waiting)
    ensures LevelsOf(T, L) == TakenLevels(old(LevelsOf(T, L)), lock, cur.original)
  {
    hide Without;
    lock.holder := cur;
    cur.waiting := Without(cur.waiting, lock);
    lock.priority := cur.original;
  }

  /** The lock also joins the holder's `lock_list` (synch.c:246). */
  method Take(lock: Lock, cur: Thread, ghost T: set<Thread>, ghost L: set<Lock>)
    requires Owned(T, L) && lock in L && cur in T && lock.holder == null && lock in cur.waiting
    modifies lock, cur`waiting, cur`locks
    ensures Owned(T, L) && lock.holder == cur && lock.priority == cur.original
    ensures cur.waiting == Without(old(cur.waiting), lock)
    ensures GraphOf(T, L) == TakenGraph(old(GraphOf(T, L)), lock, cur, cur.waiting)
    ensures LevelsOf(T, L) == TakenLevels(old(LevelsOf(T, L)), lock, cur.original)
  {
    hide Without, GraphOf, LevelsOf, TakenGraph, TakenLevels, Sorted, Distinct;
    SetHolder(lock, cur, T, L);
    var locks := InsertOrdered(cur.locks, lock);
    cur.locks := locks;
  }

  // ----- release -----

  function ReleasedGraph(g: Graph, lock: Lock): Graph
  {
    g.(holder := g.holder[lock := null])
  }

  function ReleasedLevels(v: Levels, cur: Thread, p: int): Levels
  {
    v.(thread := v.thread[cur := p])
  }

  lemma ReleasedEffective(g: Graph, v: Levels, lock: Lock, cur: Thread, p: int, t: Thread, b: int)
    requires lock in g.holder && g.holder[lock] == cur && Fits(g, v) && cur in g.waiting
    requires t != cur ==> Effective(g, v, t, b)
    requires t == cur ==> Effective(ReleasedGraph(g, lock), ReleasedLevels(v, cur, p), t, b)
    ensures Effective(ReleasedGraph(g, lock), ReleasedLevels(v, cur, p), t, b)
  {
    var h, w := ReleasedGraph(g, lock), ReleasedLevels(v, cur, p);
    if t != cur && v.thread[t] != b {
      var l :| l in g.holder && l in v.lock && g.holder[l] == t && v.lock[l] >= v.thread[t];
      assert l in h.holder && h.holder[l] == t && w.lock[l] >= w.thread[t];
    }
  }

  lemma ReleasedHeard(g: Graph, v: Levels, lock: Lock, cur: Thread, p: int, b: int)
    requires Closed(g) && lock in g.holder && Fits(g, v) && cur in g.waiting && AllHeard(g, v) && p <= v.thread[cur]
    requires Effective(ReleasedGraph(g, lock), ReleasedLevels(v, cur, p), cur, b)
    ensures AllHeard(ReleasedGraph(g, lock), ReleasedLevels(v, cur, p))
  {
    var h, w := ReleasedGraph(g, lock), ReleasedLevels(v, cur, p);
    forall t, l | t in h.waiting && l in h.waiting[t] ensures Heard(h, w, l, w.thread[t]) {
      assert Heard(g, v, l, v.thread[t]);
    }
  }

  /** `lock_list` without the lock, sorted, and the priority it leaves the thread with (synch.c:285-295). */
  method Remaining(lock: Lock, cur: Thread) returns (locks: seq<Lock>, p: int)
    requires lock in cur.locks && Distinct(cur.locks)
    ensures Distinct(locks) && forall x :: x in locks <==> x in cur.locks && x != lock
    ensures p >= cur.original && forall l :: l in locks ==> l.priority <= p
    ensures p == cur.original || exists l :: l in locks && l.priority == p
  {
    hide LastIndex;
    var k := LastIndex(cur.locks, lock);
    var rest := cur.locks[..k] + cur.locks[k + 1..];
    Dropped(cur.locks, k, rest);
    locks := SortByPriority(rest);
    if |locks| == 0 || cur.original >= locks[0].priority {
      p := cur.original;
    } else {
      p := locks[0].priority;
    }
    forall l | l in locks ensures l.priority <= p {
      var j :| 0 <= j < |locks| && locks[j] == l;
    }
  }

  method ClearHolder(lock: Lock, cur: Thread, p: int, ghost T: set<Thread>, ghost L: set<Lock>)
    requires lock in L && cur in T
    modifies lock`holder, cur`priority
    ensures lock.holder == null && cur.priority == p
    ensures GraphOf(T, L) == ReleasedGraph(old(GraphOf(T, L)), lock)
    ensures LevelsOf(T, L) == ReleasedLevels(old(LevelsOf(T, L)), cur, p)
  {
    cur.priority := p;
    lock.holder := null;
  }

  /** The list operations and the new priority of synch.c:285-296. */
  method GiveUp(lock: Lock, cur: Thread, ghost T: set<Thread>, ghost L: set<Lock>)
    requires Owned(T, L) && lock in L && cur in T && lock.holder == cur
    modifies lock`holder, cur`locks, cur`priority
    ensures Owned(T, L) && lock.holder == null
    ensures GraphOf(T, L) == ReleasedGraph(old(GraphOf(T, L)), lock)
    ensures LevelsOf(T, L) == ReleasedLevels(old(LevelsOf(T, L)), cur, cur.priority)
    ensures cur.priority >= cur.original && forall l :: l in L && l.holder == cur ==> l.priority <= cur.priority
    ensures cur.priority == cur.original || exists l :: l in L && l.holder == cur && l.priority == cur.priority
  {
    hide Distinct, GraphOf, LevelsOf, ReleasedGraph, ReleasedLevels;
    var locks, p := Remaining(lock, cur);
    cur.locks := locks;
    ClearHolder(lock, cur, p, T, L);
    assert forall l :: l in locks ==> l in L && l.holder == cur;
    assert forall l :: l in L && l.holder == cur ==> l in locks;
  }

  lemma Dropped(s: seq<Lock>, k: nat, r: seq<Lock>)
    requires k < |s| && Distinct(s) && r == s[..k] + s[k + 1..]
    ensures Distinct(r) && forall x :: x in r <==> x in s && x != s[k]
  {
    forall x | x in s && x != s[k] ensures x in r {
      var j :| 0 <= j < |s| && s[j] == x;
      assert r[if j < k then j else j - 1] == x;
    }
  }

  /**
   `lock_release` up to `sema_up`: the holder falls back to the maximum of its
   original priority and its remaining locks, and nobody loses a donation.
   */
  method Release(lock: Lock, cur: Thread, ghost T: set<Thread>, ghost L: set<Lock>)
    requires Good(T, L) && lock in L && cur in T && lock.holder == cur
    modifies lock`holder, cur`locks, cur`priority
    ensures Good(T, L) && lock.holder == null && cur.priority <= old(cur.priority)
    ensures GraphOf(T, L) == ReleasedGraph(old(GraphOf(T, L)), lock)
    ensures LevelsOf(T, L) == ReleasedLevels(old(LevelsOf(T, L)), cur, cur.priority)
    ensures old(Served(T, L)) ==> Served(T, L)
  {
    hide Heard, AllHeard, Closed;
    ghost var g, v := GraphOf(T, L), LevelsOf(T, L);
    InGraph(T, L);
    LevelsFit(T, L);
    GiveUp(lock, cur, T, L);
    ghost var h, w := GraphOf(T, L), LevelsOf(T, L);
    FallBack(g, v, h, w, lock, cur, cur.original, cur.priority);
    forall t | t in T ensures Effective(h, w, t, t.original) {
      ReleasedEffective(g, v, lock, cur, cur.priority, t, t.original);
    }
    ReleasedClosed(g, lock);
    if AllHeard(g, v) { ReleasedHeard(g, v, lock, cur, cur.priority, cur.original); }
  }

  lemma ReleasedClosed(g: Graph, lock: Lock)
    requires Closed(g) && lock in g.holder
    ensures Closed(ReleasedGraph(g, lock))
  {
  }

  lemma FallBack(g: Graph, v: Levels, h: Graph, w: Levels, lock: Lock, cur: Thread, base: int, p: int)
    requires Effective(g, v, cur, base) && Fits(g, v) && lock in g.holder && g.holder[lock] == cur && cur in g.waiting
    requires h == ReleasedGraph(g, lock) && w == ReleasedLevels(v, cur, p)
    requires p >= base && forall l :: l in h.holder && h.holder[l] == cur ==> w.lock[l] <= p
    requires p == base || exists l :: l in h.holder && h.holder[l] == cur && w.lock[l] == p
    ensures Effective(h, w, cur, base) && p <= v.thread[cur]
  {
    if p != base {
      var l :| l in h.holder && h.holder[l] == cur && w.lock[l] == p;
      assert Backed(h, w, cur, p);
    }
  }

  // ----- thread_set_priority -----

  /**
   The one case that breaks the rule: a holder that nobody has donated to lowers
   its base below the priority recorded in a lock it holds.
   */
  ghost predicate Unsound(cur: Thread, newPriority: int)
    reads cur, cur.locks
  {
    && cur.priority > newPriority && cur.priority == cur.original
    && exists l :: l in cur.locks && l.priority > newPriority
  }

  /** `thread_set_priority` up to `if_yield`; it keeps the effective-priority rule exactly outside `Unsound`. */
  method SetPriority(cur: Thread, newPriority: int, ghost T: set<Thread>, ghost L: set<Lock>)
    requires Good(T, L) && cur in T
    modifies cur`priority, cur`original
    ensures cur.original == newPriority
    ensures LevelsOf(T, L) == ReleasedLevels(old(LevelsOf(T, L)), cur, cur.priority)
    ensures Good(T, L) <==> !old(Unsound(cur, newPriority))
    ensures old(Unsound(cur, newPriority)) ==> cur.priority == newPriority
    ensures old(Served(T, L)) && old(cur.waiting) == [] && !old(Unsound(cur, newPriority)) ==> Served(T, L)
  {
    hide Heard, AllHeard, Closed, GraphOf, LevelsOf, Effective, ReleasedLevels, Owned, AllEffective, Unsound, Holds, Outranks;
    ghost var g, v := GraphOf(T, L), LevelsOf(T, L);
    ghost var base := cur.original;
    ghost var unsound := Unsound(cur, newPriority);
    AllEffectiveMeans(T, L);
    InGraph(T, L);
    LevelsFit(T, L);
    HeldFacts(cur, newPriority, T, L);
    if cur.priority > newPriority && cur.locks != [] {
      if cur.priority == cur.original {
        cur.priority := newPriority;
      }
    } else {
      cur.priority := newPriority;
    }
    cur.original := newPriority;
    LevelsFit(T, L);
    LevelChange(v, cur, T, L);
    forall t | t in T && t != cur ensures Effective(g, LevelsOf(T, L), t, t.original) {
      OtherEffective(g, v, cur, cur.priority, t, t.original);
    }
    NewBase(g, v, cur, base, newPriority, cur.priority);
    AllEffectiveBut(cur, T, L);
    if AllHeard(g, v) && cur.waiting == [] && !unsound {
      BaseHeard(g, v, cur, newPriority, cur.priority);
    }
  }

  ghost predicate Holds(g: Graph, cur: Thread)
  {
    exists l :: l in g.holder && g.holder[l] == cur
  }

  /** Some lock of `cur` has a recorded priority above `n`. */
  ghost predicate Outranks(g: Graph, v: Levels, cur: Thread, n: int)
  {
    exists l :: l in g.holder && g.holder[l] == cur && l in v.lock && v.lock[l] > n
  }

  lemma AllEffectiveMeans(T: set<Thread>, L: set<Lock>)
    requires AllEffective(T, L)
    ensures forall t :: t in T ==> Effective(GraphOf(T, L), LevelsOf(T, L), t, t.original)
  {
  }

  lemma AllEffectiveBut(cur: Thread, T: set<Thread>, L: set<Lock>)
    requires cur in T && forall t :: t in T && t != cur ==> Effective(GraphOf(T, L), LevelsOf(T, L), t, t.original)
    ensures AllEffective(T, L) <==> Effective(GraphOf(T, L), LevelsOf(T, L), cur, cur.original)
  {
  }

  /** `lock_list` and the wait-for graph tell the same story about the locks of `cur`. */
  lemma HeldFacts(cur: Thread, n: int, T: set<Thread>, L: set<Lock>)
    requires Owned(T, L) && cur in T
    ensures var g, v := GraphOf(T, L), LevelsOf(T, L);
            && g.waiting[cur] == cur.waiting
            && (forall l :: l in L ==> v.lock[l] == l.priority)
            && (cur.locks != [] <==> Holds(g, cur))
            && (Unsound(cur, n) <==> cur.priority > n && cur.priority == cur.original && Outranks(g, v, cur, n))
  {
    var g := GraphOf(T, L);
    if cur.locks != [] { assert cur.locks[0] in g.holder && g.holder[cur.locks[0]] == cur; }
  }

  lemma LevelChange(v: Levels, cur: Thread, T: set<Thread>, L: set<Lock>)
    requires cur in T && v.thread.Keys == T && v.lock.Keys == L
    requires forall t :: t in T && t != cur ==> t.priority == v.thread[t]
    requires forall l :: l in L ==> l.priority == v.lock[l]
    ensures LevelsOf(T, L) == ReleasedLevels(v, cur, cur.priority)
  {
  }

  lemma OtherEffective(g: Graph, v: Levels, cur: Thread, p: int, t: Thread, b: int)
    requires Effective(g, v, t, b) && t != cur
    ensures Effective(g, ReleasedLevels(v, cur, p), t, b)
  {
    if v.thread[t] != b {
      var l :| l in g.holder && l in v.lock && g.holder[l] == t && v.lock[l] >= v.thread[t];
      assert ReleasedLevels(v, cur, p).lock[l] >= v.thread[t];
    }
  }

  /** What the three branches of `thread_set_priority` do to the rule for the calling thread. */
  lemma NewBase(g: Graph, v: Levels, cur: Thread, base: int, n: int, p: int)
    requires Effective(g, v, cur, base) && Fits(g, v)
    requires p == if v.thread[cur] > n && Holds(g, cur) && v.thread[cur] != base then v.thread[cur] else n
    ensures Effective(g, ReleasedLevels(v, cur, p), cur, n) <==>
            !(v.thread[cur] > n && v.thread[cur] == base && Outranks(g, v, cur, n))
  {
    var w := ReleasedLevels(v, cur, p);
    if p != n {
      var l :| l in g.holder && l in v.lock && g.holder[l] == cur && v.lock[l] >= v.thread[cur];
      assert Backed(g, w, cur, p);
    }
    assert p == n ==> (Effective(g, w, cur, n) <==> forall l :: l in g.holder && g.holder[l] == cur ==> v.lock[l] <= n);
  }

  /**
   A thread at priority 31 takes a lock, which records 31, and then lowers itself
   to 10: it now runs below the priority recorded in a lock it holds.
   */
  lemma LoweringBreaksTheRule(t: Thread, l: Lock)
    ensures var g, v := Graph(map[l := t], map[t := []]), Levels(map[t := 31], map[l := 31]);
            && Effective(g, v, t, 31) && AllHeard(g, v)
            && !Effective(g, ReleasedLevels(v, t, 10), t, 10)
  {
    var g, v := Graph(map[l := t], map[t := []]), Levels(map[t := 31], map[l := 31]);
    NewBase(g, v, t, 31, 10, 10);
    assert l in g.holder && g.holder[l] == t && v.lock[l] > 10;
  }

  /**
   A thread with base 10 that runs at 50 through lock `m` obtains lock `l`, for
   which another thread waits at 40: the lock is recorded at 10, so that waiter
   is no longer heard.
   */
  lemma HandOverForgets(cur: Thread, other: Thread, l: Lock, m: Lock)
    requires cur != other && l != m
    ensures var g := Graph(map[l := null, m := cur], map[cur := [l], other := [l]]);
            var v := Levels(map[cur := 50, other := 40], map[l := 50, m := 50]);
            && Closed(g) && AllHeard(g, v) && Effective(g, v, cur, 10)
            && !AllHeard(TakenGraph(g, l, cur, []), TakenLevels(v, l, 10))
  {
    var g := Graph(map[l := null, m := cur], map[cur := [l], other := [l]]);
    var v := Levels(map[cur := 50, other := 40], map[l := 50, m := 50]);
    assert Backed(g, v, cur, 50) by { assert m in g.holder && g.holder[m] == cur && v.lock[m] >= 50; }
    TakenHeardIff(g, v, l, cur, [], 10);
    var h := TakenGraph(g, l, cur, []);
    assert other in h.waiting && l in h.waiting[other] && v.thread[other] == 40;
  }

  lemma BaseHeard(g: Graph, v: Levels, cur: Thread, n: int, p: int)
    requires Closed(g) && Fits(g, v) && AllHeard(g, v) && cur in g.waiting && g.waiting[cur] == []
    requires Effective(g, ReleasedLevels(v, cur, p), cur, n)
    ensures AllHeard(g, ReleasedLevels(v, cur, p))
  {
    var w := ReleasedLevels(v, cur, p);
    forall t, l | t in g.waiting && l in g.waiting[t] ensures Heard(g, w, l, w.thread[t]) {
      assert Heard(g, v, l, v.thread[t]);
    }
  }

  // ----- runs -----

  datatype LockOp =
    | Ask(thread: Thread, lock: Lock)
    | Obtain(thread: Thread, lock: Lock)
    | GiveBack(thread: Thread, lock: Lock)
    | Rebase(thread: Thread, priority: int)

  /** The wait-for graph, the priorities on it and the threads' own priorities. */
  datatype Snap = Snap(g: Graph, v: Levels, base: map<Thread, int>)

  ghost function SnapOf(T: set<Thread>, L: set<Lock>): Snap
    reads T, L
  {
    Snap(GraphOf(T, L), LevelsOf(T, L), map t | t in T :: t.original)
  }

  /** Thread and, if the operation names one, lock belong to the snapshot. */
  predicate Names(s: Snap, op: LockOp)
  {
    op.thread in s.g.waiting && op.thread in s.v.thread && op.thread in s.base && (op.Rebase? || op.lock in s.g.holder)
  }

  predicate Takes(s: Snap, t: Thread, l: Lock)
    requires t in s.g.waiting && l in s.g.holder
  {
    s.g.holder[l] == null && l in s.g.waiting[t]
  }

  ghost predicate LowersTooFar(s: Snap, t: Thread, n: int)
    requires t in s.v.thread && t in s.base
  {
    s.v.thread[t] > n && s.v.thread[t] == s.base[t] && Outranks(s.g, s.v, t, n)
  }

  /** One operation; those the kernel asserts against, and the unsound lowering, do nothing. */
  ghost predicate Moves(s: Snap, op: LockOp, s': Snap)
  {
    Names(s, op) &&
    match op
    case Ask(t, l) =>
      if s.g.holder[l] == t then s' == s
      else s'.g == Joined(s.g, t, l) && s'.base == s.base && Donated(s'.g, s.v, s'.v, l, t)
    case Obtain(t, l) =>
      s' == if Takes(s, t, l) then Snap(TakenGraph(s.g, l, t, Without(s.g.waiting[t], l)), TakenLevels(s.v, l, s.base[t]), s.base) else s
    case GiveBack(t, l) =>
      if s.g.holder[l] != t then s' == s
      else s'.g == ReleasedGraph(s.g, l) && s'.base == s.base && Settles(s, t, s.base[t], s')
    case Rebase(t, n) =>
      if LowersTooFar(s, t, n) then s' == s
      else s'.g == s.g && s'.base == s.base[t := n] && Settles(s, t, n, s')
  }

  /** Only the priority of `t` has changed, to the maximum of `base` and its locks. */
  ghost predicate Settles(s: Snap, t: Thread, base: int, s': Snap)
  {
    Effective(s'.g, s'.v, t, base) && s'.v == ReleasedLevels(s.v, t, s'.v.thread[t])
  }

  /** The two operations after which a waiter may be outranked. */
  ghost predicate Forgets(s: Snap, op: LockOp)
  {
    Names(s, op) &&
    match op
    case Obtain(t, l) => Takes(s, t, l) && Outvoted(s, TakenGraph(s.g, l, t, Without(s.g.waiting[t], l)), l, s.base[t])
    case Rebase(t, _) => s.g.waiting[t] != []
    case _ => false
  }

  ghost predicate Outvoted(s: Snap, h: Graph, l: Lock, base: int)
  {
    exists u :: u in h.waiting && l in h.waiting[u] && u in s.v.thread && s.v.thread[u] > base
  }

  /** Acquiring a free lock and giving it back are three moves that leave the wait-for graph as it was. */
  lemma AcquireAndRelease(s: Snap, s1: Snap, s2: Snap, s3: Snap, t: Thread, l: Lock)
    requires l in s.g.holder && s.g.holder[l] == null
    requires Moves(s, Ask(t, l), s1) && Moves(s1, Obtain(t, l), s2) && Moves(s2, GiveBack(t, l), s3)
    ensures s1.g.waiting[t] == s.g.waiting[t] + [l]
    ensures s2.g.holder == s.g.holder[l := t] && s2.g.waiting == s.g.waiting && s2.v.lock[l] == s.base[t]
    ensures s3.g == s.g
  {
    hide Donated, Effective, LastIndex, Without;
    WithoutUndoesPush(s.g.waiting[t], l);
  }

  /** Nobody waits for a lock that it holds, nor for two locks at once. */
  ghost predicate OneWait(s: Snap)
  {
    && (forall t :: t in s.g.waiting ==> |s.g.waiting[t]| <= 1)
    && (forall t, l :: t in s.g.waiting && l in s.g.waiting[t] && l in s.g.holder ==> s.g.holder[l] != t)
  }

  /** A thread asks for a lock only when it waits for none: each acquire is finished before the next. */
  predicate InTurn(s: Snap, op: LockOp)
  {
    op.Ask? && op.thread in s.g.waiting ==> s.g.waiting[op.thread] == []
  }

  lemma MoveKeepsOneWait(s: Snap, op: LockOp, s': Snap)
    requires OneWait(s) && InTurn(s, op) && Moves(s, op, s')
    ensures OneWait(s')
  {
    hide Donated, Effective, Outranks, LastIndex, Without;
    if op.Obtain? && Takes(s, op.thread, op.lock) {
      WithoutOne(s.g.waiting[op.thread], op.lock);
    }
  }

  /** Over every run in which threads ask in turn, nobody waits for a lock that it holds. */
  lemma {:induction false} NobodyWaitsForItself(trace: seq<Snap>, ops: seq<LockOp>, n: nat)
    requires |trace| == |ops| + 1 && n <= |ops| && OneWait(trace[0])
    requires forall k :: 0 <= k < |ops| ==> Moves(trace[k], ops[k], trace[k + 1]) && InTurn(trace[k], ops[k])
    ensures OneWait(trace[n])
  {
    hide OneWait, InTurn, Moves;
    if n > 0 {
      NobodyWaitsForItself(trace, ops, n - 1);
      assert Moves(trace[n - 1], ops[n - 1], trace[n - 1 + 1]);
      MoveKeepsOneWait(trace[n - 1], ops[n - 1], trace[n]);
    }
  }

  lemma SnapFields(T: set<Thread>, L: set<Lock>)
    ensures var s := SnapOf(T, L);
            && s.g.waiting.Keys == T && s.g.holder.Keys == L && s.v.thread.Keys == T && s.base.Keys == T
            && (forall t :: t in T ==> s.g.waiting[t] == t.waiting && s.v.thread[t] == t.priority && s.base[t] == t.original)
            && (forall l :: l in L ==> s.g.holder[l] == l.holder)
  {
  }

  lemma BasesSame(T: set<Thread>, L: set<Lock>, base: map<Thread, int>)
    requires base.Keys == T && forall t :: t in T ==> base[t] == t.original
    ensures SnapOf(T, L) == Snap(GraphOf(T, L), LevelsOf(T, L), base)
  {
  }

  lemma GoodEffective(T: set<Thread>, L: set<Lock>, t: Thread)
    requires Good(T, L) && t in T
    ensures Effective(GraphOf(T, L), LevelsOf(T, L), t, t.original)
  {
  }

  /** Joining the waiters and donating, unless the thread holds the lock itself. */
  method AskStep(t: Thread, l: Lock, T: set<Thread>, L: set<Lock>)
    requires Good(T, L) && t in T && l in L
    modifies T, L
    ensures Good(T, L) && Moves(old(SnapOf(T, L)), Ask(t, l), SnapOf(T, L))
    ensures old(Served(T, L)) && !Forgets(old(SnapOf(T, L)), Ask(t, l)) ==> Served(T, L)
  {
    hide Good, Unsound, SnapOf, GraphOf, LevelsOf, Donated, Effective, TakenGraph, TakenLevels, ReleasedGraph, ReleasedLevels,
         AllHeard, Without, Outranks, Reach, Joined;
    ghost var s := SnapOf(T, L);
    SnapFields(T, L);
    SnapIs(T, L);
    if l.holder != t {
      BeginAcquire(l, t, T, L);
      BasesSame(T, L, s.base);
    }
  }

  /** Taking a free lock that the thread waits for. */
  method ObtainStep(t: Thread, l: Lock, T: set<Thread>, L: set<Lock>)
    requires Good(T, L) && t in T && l in L
    modifies T, L
    ensures Good(T, L) && Moves(old(SnapOf(T, L)), Obtain(t, l), SnapOf(T, L))
    ensures old(Served(T, L)) && !Forgets(old(SnapOf(T, L)), Obtain(t, l)) ==> Served(T, L)
  {
    hide Good, Unsound, SnapOf, GraphOf, LevelsOf, Donated, Effective, TakenGraph, TakenLevels, ReleasedGraph, ReleasedLevels,
         AllHeard, Without, Outranks, Reach, Joined;
    ghost var s := SnapOf(T, L);
    SnapFields(T, L);
    SnapIs(T, L);
    if l.holder == null && l in t.waiting {
      ghost var k := FinishAcquire(l, t, T, L);
      BasesSame(T, L, s.base);
      SnapFields(T, L);
    }
  }

  /** Giving a lock back, if the thread holds it. */
  method GiveBackStep(t: Thread, l: Lock, T: set<Thread>, L: set<Lock>)
    requires Good(T, L) && t in T && l in L
    modifies T, L
    ensures Good(T, L) && Moves(old(SnapOf(T, L)), GiveBack(t, l), SnapOf(T, L))
    ensures old(Served(T, L)) && !Forgets(old(SnapOf(T, L)), GiveBack(t, l)) ==> Served(T, L)
  {
    hide Good, Unsound, SnapOf, GraphOf, LevelsOf, Donated, Effective, TakenGraph, TakenLevels, ReleasedGraph, ReleasedLevels,
         AllHeard, Without, Outranks, Reach, Joined;
    ghost var s := SnapOf(T, L);
    SnapFields(T, L);
    SnapIs(T, L);
    if l.holder == t {
      Release(l, t, T, L);
      BasesSame(T, L, s.base);
      SnapFields(T, L);
      GoodEffective(T, L, t);
    }
  }

  /** Changing a thread's own priority, unless that is unsound. */
  method RebaseStep(t: Thread, n: int, T: set<Thread>, L: set<Lock>)
    requires Good(T, L) && t in T
    modifies T, L
    ensures Good(T, L) && Moves(old(SnapOf(T, L)), Rebase(t, n), SnapOf(T, L))
    ensures old(Served(T, L)) && !Forgets(old(SnapOf(T, L)), Rebase(t, n)) ==> Served(T, L)
  {
    hide Good, Unsound, SnapOf, GraphOf, LevelsOf, Donated, Effective, TakenGraph, TakenLevels, ReleasedGraph, ReleasedLevels,
         AllHeard, Without, Outranks, Reach, Joined, Settles, Takes, LowersTooFar, HeardBut;
    ghost var s := SnapOf(T, L);
    SnapFields(T, L);
    SnapIs(T, L);
    UnsoundIs(t, n, T, L);
    var bad := IsUnsound(t, n);
    if !bad {
      SetPriority(t, n, T, L);
      BasesSame(T, L, s.base[t := n]);
      SnapFields(T, L);
      SettledNow(s, t, n, T, L);
    }
  }

  /** One operation of the code is one move, and only `Forgets` can cost a waiter its hearing. */
  method Perform(op: LockOp, T: set<Thread>, L: set<Lock>)
    requires Good(T, L) && op.thread in T && (op.Rebase? || op.lock in L)
    modifies T, L
    ensures Good(T, L) && Moves(old(SnapOf(T, L)), op, SnapOf(T, L))
    ensures old(Served(T, L)) && !Forgets(old(SnapOf(T, L)), op) ==> Served(T, L)
  {
    hide Good, SnapOf, Moves, Forgets, Served;
    match op
    case Ask(t, l) => AskStep(t, l, T, L);
    case Obtain(t, l) => ObtainStep(t, l, T, L);
    case GiveBack(t, l) => GiveBackStep(t, l, T, L);
    case Rebase(t, n) => RebaseStep(t, n, T, L);
  }

  lemma SnapIs(T: set<Thread>, L: set<Lock>)
    ensures SnapOf(T, L).g == GraphOf(T, L) && SnapOf(T, L).v == LevelsOf(T, L)
  {
  }

  lemma UnsoundIs(t: Thread, n: int, T: set<Thread>, L: set<Lock>)
    requires Good(T, L) && t in T
    ensures var s := SnapOf(T, L); t in s.v.thread && t in s.base && (Unsound(t, n) <==> LowersTooFar(s, t, n))
  {
    hide Unsound, Outranks, GraphOf, LevelsOf, AllEffective;
    SnapFields(T, L);
    HeldFacts(t, n, T, L);
  }

  lemma SettledNow(s: Snap, t: Thread, n: int, T: set<Thread>, L: set<Lock>)
    requires Good(T, L) && t in T && t.original == n && LevelsOf(T, L) == ReleasedLevels(s.v, t, t.priority)
    ensures Settles(s, t, n, SnapOf(T, L))
  {
    SnapFields(T, L);
  }

  /**
   Every run of acquires, donations, releases and priority changes, in any order
   and over any wait-for graph: the code makes exactly the moves of `trace`, the
   effective-priority rule holds at the end, and if everyone was heard at the
   start and no operation forgets a waiter, everyone is heard at the end.
   */
  method RunLocks(ops: seq<LockOp>, T: set<Thread>, L: set<Lock>) returns (ghost trace: seq<Snap>)
    requires Good(T, L)
    requires forall k :: 0 <= k < |ops| ==> ops[k].thread in T && (ops[k].Rebase? || ops[k].lock in L)
    modifies T, L
    ensures |trace| == |ops| + 1 && trace[0] == old(SnapOf(T, L)) && trace[|ops|] == SnapOf(T, L)
    ensures forall k :: 0 <= k < |ops| ==> Moves(trace[k], ops[k], trace[k + 1])
    ensures Good(T, L)
    ensures old(Served(T, L)) && (forall k :: 0 <= k < |ops| ==> !Forgets(trace[k], ops[k])) ==> Served(T, L)
    ensures OneWait(trace[0]) && (forall k :: 0 <= k < |ops| ==> InTurn(trace[k], ops[k])) ==> OneWait(SnapOf(T, L))
  {
    hide Good, SnapOf, Moves, Forgets, Served, OneWait, InTurn;
    trace := [SnapOf(T, L)];
    for n := 0 to |ops|
      invariant Good(T, L) && |trace| == n + 1 && trace[0] == old(SnapOf(T, L)) && trace[n] == SnapOf(T, L)
      invariant forall k :: 0 <= k < n ==> Moves(trace[k], ops[k], trace[k + 1])
      invariant old(Served(T, L)) && (forall k :: 0 <= k < n ==> !Forgets(trace[k], ops[k])) ==> Served(T, L)
    {
      Perform(ops[n], T, L);
      trace := trace + [SnapOf(T, L)];
    }
    if OneWait(trace[0]) && forall k :: 0 <= k < |ops| ==> InTurn(trace[k], ops[k]) {
      NobodyWaitsForItself(trace, ops, |ops|);
    }
  }

  method IsUnsound(cur: Thread, newPriority: int) returns (bad: bool)
    ensures bad == Unsound(cur, newPriority)
  {
    bad := false;
    var k := 0;
    while k < |cur.locks|
      invariant 0 <= k <= |cur.locks|
      invariant bad <==> exists j :: 0 <= j < k && cur.locks[j].priority > newPriority
    {
      bad := bad || cur.locks[k].priority > newPriority;
      k := k + 1;
    }
    assert bad <==> exists l :: l in cur.locks && l.priority > newPriority;
    bad := bad && cur.priority > newPriority && cur.priority == cur.original;
  }
}
