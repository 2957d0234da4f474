/**
 The 64-entry write-back buffer cache. `view` is what a caller is entitled to
 see: the cached data of a sector if it is cached, the sector itself otherwise.
 */
module BufferCache {
  import opened Bytes

  const CACHE_SIZE: nat := 64

  /** One cache entry: `AB` is the accessed bit, `DB` the dirty bit. */
  datatype Entry = Entry(sid: nat, AB: bool, DB: bool, data: Block)

  // ----- second chance, as a function of the list -----

  /** Position of the first entry whose accessed bit is off; |es| if there is none. */
  function FirstCold(es: seq<Entry>): (k: nat)
    ensures k <= |es|
    ensures forall j :: 0 <= j < k ==> es[j].AB
    ensures k < |es| ==> !es[k].AB
  {
    if es == [] || !es[0].AB then 0 else 1 + FirstCold(es[1..])
  }

  function Cooled(es: seq<Entry>): (r: seq<Entry>)
    ensures |r| == |es|
    ensures forall k :: 0 <= k < |es| ==> r[k] == es[k].(AB := false)
  {
    seq(|es|, k requires 0 <= k < |es| => es[k].(AB := false))
  }

  /** The list once the hand has passed over its first `e` entries. */
  function Swept(es: seq<Entry>, e: nat): (r: seq<Entry>)
    requires e <= |es|
    ensures |r| == |es|
    ensures forall k :: 0 <= k < |es| ==> r[k] == if k < e then es[k].(AB := false) else es[k]
  {
    Cooled(es[..e]) + es[e..]
  }

  /** The victim: the first cold entry, or the head once a whole pass has cooled everything. */
  function Victim(es: seq<Entry>): (k: nat)
    requires es != []
    ensures k < |es|
    ensures forall j :: 0 <= j < k ==> es[j].AB
    ensures es[k].AB ==> k == 0 && forall j :: 0 <= j < |es| ==> es[j].AB
  {
    if FirstCold(es) < |es| then FirstCold(es) else 0
  }

  /** The list that remains: only bits the hand passed over are cleared. */
  function AfterEviction(es: seq<Entry>): (r: seq<Entry>)
    requires es != []
    ensures |r| == |es| - 1
    ensures forall j :: 0 <= j < Victim(es) ==> r[j] == es[j].(AB := false)
    ensures !es[Victim(es)].AB ==> forall j :: Victim(es) <= j < |r| ==> r[j] == es[j + 1]
    ensures es[Victim(es)].AB ==> forall j :: 0 <= j < |r| ==> r[j] == es[j + 1].(AB := false)
  {
    var v := FirstCold(es);
    if v < |es| then Cooled(es[..v]) + es[v + 1..] else Cooled(es[1..])
  }

  /** The list after `create_cache` has made room: one eviction if the counter is at its limit, none otherwise. */
  function RoomFor(es: seq<Entry>, removals: nat): seq<Entry>
  {
    if |es| + removals < CACHE_SIZE || es == [] then es else AfterEviction(es)
  }

  /** Does the endless loop of `cache_evict` find a victim within `passes` passes? */
  predicate FindsVictim(es: seq<Entry>, passes: nat)
    decreases passes
  {
    passes > 0 && (FirstCold(es) < |es| || FindsVictim(Cooled(es), passes - 1))
  }

  /** `cache_evict` returns exactly on a non-empty list, and then within two passes. */
  lemma {:induction false} EvictReturnsIff(es: seq<Entry>)
    ensures es != [] ==> FindsVictim(es, 2)
    ensures (exists n: nat :: FindsVictim(es, n)) <==> es != []
  {
    if es != [] {
      assert FirstCold(Cooled(es)) == 0;
      assert FindsVictim(Cooled(es), 1);
      assert FindsVictim(es, 2);
      assert exists n: nat :: FindsVictim(es, n);
    } else {
      forall n: nat ensures !FindsVictim(es, n) { NeverFinds(n); }
    }
  }

  lemma {:induction false} NeverFinds(n: nat)
    ensures !FindsVictim([], n)
  {
    if n > 0 {
      assert Cooled([]) == [];
      NeverFinds(n - 1);
    }
  }

  /** Does the loop of `create_cache` end within `n` evictions, each of which returns? */
  ghost predicate MakesRoom(es: seq<Entry>, used: int, n: nat)
    decreases n
  {
    used < CACHE_SIZE || (n > 0 && (exists passes: nat :: FindsVictim(es, passes)) && es != [] && MakesRoom(AfterEviction(es), used - 1, n - 1))
  }

  /** `create_cache` returns exactly while fewer than 64 entries have been lost to `cache_remove`. */
  lemma {:induction false} CreateReturnsIff(es: seq<Entry>, used: int, removals: nat)
    requires used == |es| + removals <= CACHE_SIZE
    ensures (exists n: nat :: MakesRoom(es, used, n)) <==> removals < CACHE_SIZE
  {
    EvictReturnsIff(es);
    if removals < CACHE_SIZE {
      if used == CACHE_SIZE {
        assert MakesRoom(AfterEviction(es), used - 1, 0);
      }
      assert MakesRoom(es, used, 1);
    }
  }

  predicate Cached(es: seq<Entry>, sid: nat)
  {
    exists k :: 0 <= k < |es| && es[k].sid == sid
  }

  predicate UniqueSids(es: seq<Entry>)
  {
    forall j, k :: 0 <= j < k < |es| ==> es[j].sid != es[k].sid
  }

  /** What the cache list, the device and the callers' view owe one another. */
  ghost predicate Coherent(es: seq<Entry>, disk: seq<Block>, view: seq<Block>)
  {
    && UniqueSids(es)
    && |view| == |disk|
    && (forall k :: 0 <= k < |es| ==> es[k].sid < |disk|)
    && (forall k :: 0 <= k < |es| ==> view[es[k].sid] == es[k].data)
    && (forall k :: 0 <= k < |es| && !es[k].DB ==> disk[es[k].sid] == es[k].data)
    && (forall s :: 0 <= s < |disk| && !Cached(es, s) ==> view[s] == disk[s])
  }

  class BufferCache {
    var disk: seq<Block>
    var entries: seq<Entry>
    var usedCache: int
    ghost var view: seq<Block>
    ghost var removals: nat  // calls of cache_remove, none of which touches used_cache

    ghost predicate Valid()
      reads this
    {
      && usedCache == |entries| + removals
      && usedCache <= CACHE_SIZE
      && |view| == |disk|
      && Coherent(entries, disk, view)
    }

    constructor (device: seq<Block>)
      ensures Valid() && view == device && disk == device && entries == [] && removals == 0
    {
      disk, view := device, device;
      entries, usedCache, removals := [], 0, 0;
    }

    /** Linear search of the cache list. */
    method FindCache(sid: nat) returns (k: int)
      ensures k == -1 <==> !Cached(entries, sid)
      ensures k != -1 ==> 0 <= k < |entries| && entries[k].sid == sid
    {
      k := 0;
      while k < |entries|
        invariant 0 <= k <= |entries|
        invariant forall j :: 0 <= j < k ==> entries[j].sid != sid
      {
        if entries[k].sid == sid { return; }
        k := k + 1;
      }
      k := -1;
    }

    /** One pass of the hand: clears accessed bits up to the first cold entry, if any. */
    method ScanPass() returns (e: nat)
      modifies this`entries
      ensures e == FirstCold(old(entries)) && entries == Swept(old(entries), e)
    {
      hide FirstCold, Cooled;
      ghost var es := entries;
      e := 0;
      while e < |entries| && entries[e].AB
        invariant 0 <= e <= |es|
        invariant entries == Swept(es, e)
        invariant forall j :: 0 <= j < e ==> es[j].AB
      {
        entries := entries[e := entries[e].(AB := false)];
        e := e + 1;
      }
      FirstColdIs(es, e);
    }

    /** Writes entry `e` back if it is dirty and drops it. */
    method DropEntry(e: nat)
      requires Valid() && e < |entries|
      modifies this
      ensures Valid() && view == old(view) && removals == old(removals)
      ensures entries == old(entries)[..e] + old(entries)[e + 1..]
      ensures disk == if old(entries)[e].DB then old(disk)[old(entries)[e].sid := old(entries)[e].data] else old(disk)
    {
      if entries[e].DB {
        disk := disk[entries[e].sid := entries[e].data];
      }
      entries := entries[..e] + entries[e + 1..];
      usedCache := usedCache - 1;
      DropKeepsView(old(entries), old(disk), view, e, entries, disk);
    }

    /**
     The clock hand. `steps` counts the entries looked at: at most one full
     pass and one more.
     */
    method FindVictim() returns (e: nat, ghost steps: nat)
      requires entries != []
      modifies this`entries
      ensures e < |entries| == |old(entries)| && e == Victim(old(entries))
      ensures forall k :: 0 <= k < |entries| ==> entries[k].(AB := old(entries)[k].AB) == old(entries)[k]
      ensures entries[..e] + entries[e + 1..] == AfterEviction(old(entries))
      ensures steps == FirstCold(old(entries)) + 1 <= |old(entries)| + 1
    {
      ghost var es := entries;
      ghost var pass := 0;
      steps := 0;
      while true
        invariant 0 <= pass <= 1 && steps == if pass == 0 then 0 else |es|
        invariant entries == if pass == 0 then es else Cooled(es)
        invariant pass == 1 ==> FirstCold(es) == |es|
        decreases 1 - pass
      {
        e := ScanPass();
        HandPosition(es, pass == 0, e, entries);
        steps := steps + e;
        if e < |entries| {
          steps := steps + 1;
          return;
        }
        pass := pass + 1;
      }
    }

    /** Removes exactly the victim, writing it first if it is dirty. */
    method CacheEvict() returns (ghost steps: nat)
      requires Valid() && entries != []
      modifies this
      ensures Valid() && view == old(view) && removals == old(removals)
      ensures entries == AfterEviction(old(entries)) && |entries| == |old(entries)| - 1
      ensures var victim := old(entries)[Victim(old(entries))];
              disk == if victim.DB then old(disk)[victim.sid := victim.data] else old(disk)
      ensures forall s :: Cached(entries, s) ==> Cached(old(entries), s)
      ensures steps == FirstCold(old(entries)) + 1 <= |old(entries)| + 1
    {
      var e;
      e, steps := FindVictim();
      ghost var swept := entries;
      FlagsDoNotMatter(old(entries), swept, disk, view);
      SameSids(old(entries), swept);
      DropEntry(e);
      DropKeepsSids(swept, e, entries);
      assert swept[e].(AB := old(entries)[e].AB) == old(entries)[e];
    }

    /** Makes room, then reads the sector in. With 64 lost entries the source never returns. */
    method CreateCache(sid: nat, write: bool) returns (k: nat)
      requires Valid() && removals < CACHE_SIZE
      requires sid < |disk| && !Cached(entries, sid)
      modifies this
      ensures Valid() && view == old(view) && removals == old(removals)
      ensures entries == RoomFor(old(entries), removals) + [Entry(sid, true, write, view[sid])] && k == |entries| - 1
      ensures |old(entries)| + removals < 64 ==>
                entries == old(entries) + [Entry(sid, true, write, view[sid])] && disk == old(disk)
      ensures |old(entries)| + removals == 64 ==>
                old(entries) != [] && entries == AfterEviction(old(entries)) + [Entry(sid, true, write, view[sid])]
    {
      while usedCache >= CACHE_SIZE
        invariant Valid() && view == old(view) && removals == old(removals) && !Cached(entries, sid)
        invariant if usedCache >= CACHE_SIZE then entries == old(entries) else entries == RoomFor(old(entries), removals)
        invariant |old(entries)| + removals < CACHE_SIZE ==> disk == old(disk)
        decreases usedCache
      {
        ghost var steps := CacheEvict();
      }
      ghost var before := entries;
      entries := entries + [Entry(sid, true, write, disk[sid])];
      usedCache := usedCache + 1;
      k := |entries| - 1;
      AppendKeepsView(before, disk, view, entries);
    }

    /** Hit or miss, `cache_block` never changes what callers see. */
    method CacheBlock(sid: nat, write: bool) returns (k: nat)
      requires Valid() && removals < CACHE_SIZE && sid < |disk|
      modifies this
      ensures Valid() && view == old(view) && removals == old(removals)
      ensures k < |entries| && entries[k].sid == sid && entries[k].data == view[sid]
      ensures Cached(old(entries), sid) ==>
                && |entries| == |old(entries)| && entries[k] == old(entries)[k].(AB := true, DB := old(entries)[k].DB || write)
                && disk == old(disk) && forall j :: 0 <= j < |entries| && j != k ==> entries[j] == old(entries)[j]
      ensures !Cached(old(entries), sid) ==>
                entries == RoomFor(old(entries), removals) + [Entry(sid, true, write, view[sid])]
    {
      var c := FindCache(sid);
      if c == -1 {
        k := CreateCache(sid, write);
      } else {
        k := c;
        ghost var before := entries;
        entries := entries[k := entries[k].(AB := true, DB := entries[k].DB || write)];
        FlagsDoNotMatter(before, entries, disk, view);
      }
    }

    /** `cache_block (sid, READ_BLOCK)` and a copy out of the buffer. */
    method ReadBlock(sid: nat) returns (b: Block)
      requires Valid() && removals < CACHE_SIZE && sid < |disk|
      modifies this
      ensures Valid() && view == old(view) && removals == old(removals)
      ensures b == view[sid]
    {
      var k := CacheBlock(sid, false);
      b := entries[k].data;
    }

    /** `cache_block (sid, WRITE_BLOCK)` and a copy into the buffer. */
    method WriteAt(sid: nat, ofs: nat, data: seq<byte>)
      requires Valid() && removals < CACHE_SIZE && sid < |disk|
      requires ofs + |data| <= 512
      modifies this
      ensures Valid() && removals == old(removals)
      ensures view == old(view)[sid := Patch(old(view)[sid], ofs, data)]
    {
      var k := CacheBlock(sid, true);
      ghost var before := entries;
      entries := entries[k := entries[k].(data := Patch(entries[k].data, ofs, data))];
      PatchShowsInView(before, disk, view, k, entries[k].data);
      view := view[sid := entries[k].data];
    }

    /** Periodic write-back: everything becomes clean, nobody sees a difference. */
    method WriteToDisk()
      requires Valid()
      modifies this
      ensures Valid() && view == old(view) && removals == old(removals)
      ensures |entries| == |old(entries)|
      ensures forall k :: 0 <= k < |entries| ==> entries[k] == old(entries)[k].(DB := false)
    {
      var e := 0;
      while e < |entries|
        invariant 0 <= e <= |entries| == |old(entries)|
        invariant Valid() && view == old(view) && removals == old(removals)
        invariant forall k :: 0 <= k < e ==> entries[k] == old(entries)[k].(DB := false)
        invariant forall k :: e <= k < |entries| ==> entries[k] == old(entries)[k]
      {
        if entries[e].DB {
          ghost var before, was := entries, disk;
          disk := disk[entries[e].sid := entries[e].data];
          entries := entries[e := entries[e].(DB := false)];
          CleanKeepsView(before, was, view, e);
        }
        e := e + 1;
      }
    }

    /** Drops an entry without writing it, and without decrementing `used_cache`. */
    method CacheRemove(k: nat)
      requires Valid() && k < |entries|
      modifies this
      ensures Valid() && removals == old(removals) + 1 && usedCache == old(usedCache)
      ensures entries == old(entries)[..k] + old(entries)[k + 1..] && disk == old(disk)
      ensures view == old(view)[old(entries)[k].sid := disk[old(entries)[k].sid]]
    {
      ghost var es := entries;
      ghost var sid := entries[k].sid;
      entries := entries[..k] + entries[k + 1..];
      view := view[sid := disk[sid]];
      removals := removals + 1;
      DropKeepsSids(es, k, entries);
    }

    /** Shutdown: every entry is written and dropped, so the device holds exactly the view. */
    method FreeCache()
      requires Valid()
      modifies this
      ensures Valid() && entries == [] && disk == view && view == old(view)
      ensures usedCache == removals == old(removals)
    {
      while entries != []
        invariant Valid() && view == old(view) && removals == old(removals)
        decreases |entries|
      {
        ghost var es, was := entries, disk;
        var c := entries[0];
        disk := disk[c.sid := c.data];
        entries := entries[1..];
        usedCache := usedCache - 1;
        DropKeepsView(es, was, view, 0, entries, disk);
      }
      forall s | 0 <= s < |disk| ensures disk[s] == view[s] { assert !Cached(entries, s); }
    }
  }

  /** Where one pass stops, and what dropping the entry there leaves behind. */
  lemma HandPosition(es: seq<Entry>, first: bool, e: nat, after: seq<Entry>)
    requires es != [] && (first || FirstCold(es) == |es|)
    requires var start := if first then es else Cooled(es);
             e == FirstCold(start) && after == Swept(start, e)
    ensures |after| == |es|
    ensures e == |after| ==> first && FirstCold(es) == |es| && after == Cooled(es)
    ensures e < |after| ==>
              && e == Victim(es) && after[e].(AB := es[e].AB) == es[e]
              && after[..e] + after[e + 1..] == AfterEviction(es)
              && (if first then e == FirstCold(es) else e == 0)
    ensures forall k :: 0 <= k < |es| ==> after[k].(AB := es[k].AB) == es[k]
  {
    forall k | 0 <= k < |es| ensures after[k].(AB := es[k].AB) == es[k] {
      assert after[k] == es[k] || after[k] == es[k].(AB := false);
    }
    if first {
      if e < |after| {
        assert after[..e] == Cooled(es[..e]) && after[e + 1..] == es[e + 1..];
      }
    } else {
      assert after == Cooled(es);
      assert after[..0] + after[1..] == Cooled(es[1..]);
    }
  }

  lemma {:induction false} FirstColdIs(es: seq<Entry>, e: nat)
    requires e <= |es|
    requires forall j :: 0 <= j < e ==> es[j].AB
    requires e < |es| ==> !es[e].AB
    ensures FirstCold(es) == e
  {
  }

  /** Accessed bits are free to change, and a clean entry may be called dirty. */
  lemma FlagsDoNotMatter(es: seq<Entry>, es': seq<Entry>, disk: seq<Block>, view: seq<Block>)
    requires Coherent(es, disk, view) && |es'| == |es|
    requires forall k :: 0 <= k < |es| ==> es'[k].(AB := es[k].AB) == es[k] || es'[k].(AB := es[k].AB) == es[k].(DB := true)
    ensures Coherent(es', disk, view)
    ensures forall k :: 0 <= k < |es| ==> es'[k].sid == es[k].sid
  {
    forall k | 0 <= k < |es|
      ensures es'[k].sid == es[k].sid && es'[k].data == es[k].data && (es[k].DB ==> es'[k].DB)
    {
      assert es'[k].(AB := es[k].AB) == es[k] || es'[k].(AB := es[k].AB) == es[k].(DB := true);
    }
    SameSids(es, es');
  }

  /** A sector that is not cached can be read in. */
  lemma AppendKeepsView(es: seq<Entry>, disk: seq<Block>, view: seq<Block>, es': seq<Entry>)
    requires Coherent(es, disk, view) && |es'| == |es| + 1 && es'[..|es|] == es
    requires var c := es'[|es|]; c.sid < |disk| && c.data == disk[c.sid] && !Cached(es, c.sid)
    ensures Coherent(es', disk, view)
  {
    var sid := es'[|es|].sid;
    assert forall k :: 0 <= k < |es| ==> es'[k] == es[k];
    forall s | Cached(es, s) ensures Cached(es', s) && s != sid {
      var j :| 0 <= j < |es| && es[j].sid == s;
      assert es'[j].sid == s;
    }
    assert Cached(es', sid);
  }

  /** Writing into a dirty buffer changes the view at that sector alone. */
  lemma PatchShowsInView(es: seq<Entry>, disk: seq<Block>, view: seq<Block>, k: nat, data: Block)
    requires Coherent(es, disk, view) && k < |es| && es[k].DB
    ensures Coherent(es[k := es[k].(data := data)], disk, view[es[k].sid := data])
  {
    SameSids(es, es[k := es[k].(data := data)]);
    assert Cached(es, es[k].sid);
  }

  /** Writing a dirty entry to its sector cleans it. */
  lemma CleanKeepsView(es: seq<Entry>, disk: seq<Block>, view: seq<Block>, e: nat)
    requires Coherent(es, disk, view) && e < |es|
    ensures Coherent(es[e := es[e].(DB := false)], disk[es[e].sid := es[e].data], view)
  {
    SameSids(es, es[e := es[e].(DB := false)]);
    assert Cached(es, es[e].sid);
  }

  /** Writing an entry if it is dirty and forgetting it leaves the view intact. */
  lemma DropKeepsView(es: seq<Entry>, disk: seq<Block>, view: seq<Block>, e: nat,
                      es': seq<Entry>, disk': seq<Block>)
    requires Coherent(es, disk, view) && e < |es| && es' == es[..e] + es[e + 1..]
    requires disk' == disk[es[e].sid := es[e].data] || (disk' == disk && !es[e].DB)
    ensures Coherent(es', disk', view)
  {
    DropKeepsSids(es, e, es');
  }

  lemma DropKeepsSids(es: seq<Entry>, e: nat, es': seq<Entry>)
    requires e < |es| && es' == es[..e] + es[e + 1..]
    ensures forall s :: Cached(es', s) ==> Cached(es, s)
    ensures forall s :: Cached(es, s) && s != es[e].sid ==> Cached(es', s)
  {
    forall s | Cached(es', s) ensures Cached(es, s) {
      var k :| 0 <= k < |es'| && es'[k].sid == s;
      assert es[if k < e then k else k + 1].sid == s;
    }
    forall s | Cached(es, s) && s != es[e].sid ensures Cached(es', s) {
      var k :| 0 <= k < |es| && es[k].sid == s;
      assert es'[if k < e then k else k - 1].sid == s;
    }
  }

  lemma SameSids(before: seq<Entry>, after: seq<Entry>)
    requires |before| == |after|
    requires forall k :: 0 <= k < |before| ==> before[k].sid == after[k].sid
    ensures forall s :: Cached(before, s) <==> Cached(after, s)
  {
    forall s ensures Cached(before, s) <==> Cached(after, s) {
      if Cached(before, s) {
        var k :| 0 <= k < |before| && before[k].sid == s;
        assert after[k].sid == s;
      }
    }
  }
}
