/**
 `file_growth` and `byte_to_sector`: the operations that walk and extend the
 index tree through the buffer cache and the free map.

 The C code ignores failed allocations, writes past a cache buffer and follows
 index slots that were never assigned. The model stops with `ok == false` at the
 first such event; the contract of `FileGrowth` says exactly when none occurs.
 */
module BlockStore {
  import opened Bytes
  import opened IndexTree
  import opened FreeMap
  import opened BufferCache

  /** `struct inode_disk`, without its magic number and padding. */
  datatype InodeData = InodeData(length: word, sp: word, ind: word, din: word, isdir: bool, parent: word)

  function NodeOf(d: InodeData): Node
  {
    NodeFor(d.sp, d.ind, d.din, d.length)
  }

  predicate Pointers(d: InodeData, n: Node)
  {
    n.sp == d.sp && n.ind == d.ind && n.din == d.din
  }

  // ----- when growth works -----

  /** Growth that stays inside the last, partly filled block (inode.c:210). */
  predicate SameBlock(length: nat, end: nat)
  {
    end / 512 == length / 512 && length % 512 != 0
  }

  function Max(a: int, b: int): int
  {
    if a < b then b else a
  }

  /** One growth below `din` may not leave the second-level block where it starts. */
  predicate SameSecond(first: nat, block: nat)
    requires 129 <= first && 129 <= block
  {
    (block - 129) / 128 == (first - 129) / 128 < 128
  }

  function DoubleNeed(first: nat, block: nat): int
    requires 129 <= first
  {
    (if (first - 129) % 128 == 0 then 1 else 0) + (block + 1 - first)
  }

  predicate FarDomain(length: nat, end: nat)
    requires 129 * 512 <= end
  {
    end == 129 * 512 || SameSecond(Max(129, BytesToSectors(length)), end / 512)
  }

  function FarNeed(length: nat, end: nat): int
  {
    Max(0, 129 - BytesToSectors(length)) +
    if end == 129 * 512 then 0 else
    (if length <= 129 * 512 then 1 else 0) + DoubleNeed(Max(129, BytesToSectors(length)), end / 512)
  }

  predicate AcrossDomain(length: nat, end: nat)
  {
    end < 129 * 512 || FarDomain(length, end)
  }

  /** Sectors taken when growth leaves the last block, index blocks and orphans included. */
  function AcrossNeed(length: nat, end: nat): int
  {
    (if length == 0 then 1 else 0) +
    if end == 512 then 0 else
    (if length <= 512 then 1 else 0) +
    IndexedNeed(Max(512, length), end)
  }

  function IndexedNeed(length: nat, end: nat): int
  {
    if end < 129 * 512 then end / 512 + 1 - BytesToSectors(length) else FarNeed(length, end)
  }

  /**
   Exactly the growths that neither write outside a buffer nor follow an
   unassigned second-level slot.
   */
  predicate GrowthDomain(length: nat, pos: nat, size: nat)
  {
    if SameBlock(length, pos + size) then pos == length || (length < 512 && length < pos)
    else AcrossDomain(length, pos + size)
  }

  function Needed(length: nat, pos: nat, size: nat): int
  {
    if SameBlock(length, pos + size) then 0 else AcrossNeed(length, pos + size)
  }

  /** The tree holds at least what a file of `end` bytes reaches. */
  predicate Covers(n: Node, d: InodeData, end: nat)
  {
    var need := NodeFor(d.sp, d.ind, d.din, end);
    Pointers(d, n) && need.blocks <= n.blocks && need.seconds <= n.seconds && need.blocks <= MAX_BLOCKS &&
    (need.hasInd ==> n.hasInd) && (need.hasDin ==> n.hasDin)
  }

  /**
   Ordinary requests outside the domain: a write across the end of a short file,
   a gap inside the last block of a longer one, and one write that fills the
   first second-level block and starts the next.
   */
  lemma GrowthFailures()
    ensures !GrowthDomain(100, 50, 100)
    ensures !GrowthDomain(600, 700, 10)
    ensures !GrowthDomain(129 * 512, 129 * 512, 128 * 512)
    ensures GrowthDomain(256 * 512 + 1, 256 * 512 + 1, 1024)
  {
  }

  /** Growing a file at its end by less than a sector is always in the domain, up to the last block. */
  lemma AppendInDomain(length: nat, size: nat)
    requires 0 < size < 512 && length + size < MAX_BLOCKS * 512
    ensures GrowthDomain(length, length, size)
  {
  }

  /**
   The end that a growth from `length` may not reach: that of the second-level
   block in which its first new block lies, or of the largest file.
   */
  function GrowthLimit(length: nat): nat
  {
    var first := Max(129, BytesToSectors(length));
    var limit := 129 + 128 * ((first - 129) / 128 + 1);
    512 * if limit < MAX_BLOCKS then limit else MAX_BLOCKS
  }

  /** The growth domain as an interval of ends, with one more condition inside the last block. */
  lemma DomainIff(length: nat, pos: nat, size: nat)
    requires length < pos + size && length < MAX_BLOCKS * 512
    ensures GrowthDomain(length, pos, size) <==>
            && pos + size < GrowthLimit(length)
            && ((pos + size) / 512 == length / 512 && length % 512 != 0 ==> pos == length || (length < 512 && length < pos))
  {
    var end := pos + size;
    SectorCount(length);
    if SameBlock(length, end) {
      SameBlockLimit(length, end);
    } else {
      AcrossLimit(length, end);
    }
  }

  lemma SameBlockLimit(length: nat, end: nat)
    requires SameBlock(length, end) && length < MAX_BLOCKS * 512
    ensures end < GrowthLimit(length)
  {
    SectorCount(length);
    assert end / 512 < BytesToSectors(length);
  }

  lemma AcrossLimit(length: nat, end: nat)
    requires length < end && length < MAX_BLOCKS * 512 && !SameBlock(length, end)
    ensures AcrossDomain(length, end) <==> end < GrowthLimit(length)
  {
    hide BytesToSectors;
    SectorCount(length);
    var first := Max(129, BytesToSectors(length));
    if end >= 129 * 512 {
      SecondLimit(first, end / 512);
    }
  }

  lemma SecondLimit(first: nat, block: nat)
    requires 129 <= first <= block + 1 && 129 <= block
    requires first <= block || (first - 129) % 128 != 0
    ensures SameSecond(first, block) <==> block < 129 + 128 * ((first - 129) / 128 + 1) && block < MAX_BLOCKS
  {
  }

  /** Creation of any size, and an append of any size, in plain numbers. */
  lemma CreateAndAppendDomain(length: nat, size: nat)
    ensures GrowthDomain(0, 0, size) <==> size < 257 * 512
    ensures 0 < size && length < MAX_BLOCKS * 512 ==> (GrowthDomain(length, length, size) <==> length + size < GrowthLimit(length))
    ensures length <= 129 * 512 ==> GrowthLimit(length) == 257 * 512
  {
    hide GrowthLimit;
    FirstLimit(length);
    FirstLimit(0);
    if size > 0 {
      DomainIff(0, 0, size);
      if length < MAX_BLOCKS * 512 { DomainIff(length, length, size); }
    }
  }

  lemma FirstLimit(length: nat)
    ensures length <= 129 * 512 ==> GrowthLimit(length) == 257 * 512
  {
    SectorCount(length);
  }

  // ----- sectors that no file reaches -----

  /** Sectors that a file of `length` bytes reaches: its blocks and the index blocks above them. */
  function SectorsOf(length: nat): nat
  {
    var n := NodeFor(0, 0, 0, length);
    n.blocks + (if n.hasInd then 1 else 0) + (if n.hasDin then 1 else 0) + n.seconds
  }

  /** The data blocks and index blocks of file `i`. */
  ghost function RolesOf(n: Node, i: nat): set<Role>
  {
    DataRoles(i, n.blocks) + SecondRoles(i, n.seconds) + (if n.hasInd then {Ind(i)} else {}) + (if n.hasDin then {Din(i)} else {})
  }

  ghost function DataRoles(i: nat, n: nat): (s: set<Role>)
    ensures |s| == n && forall q :: q in s <==> q.Data? && q.i == i && q.b < n
  {
    if n == 0 then {} else DataRoles(i, n - 1) + {Data(i, n - 1)}
  }

  ghost function SecondRoles(i: nat, n: nat): (s: set<Role>)
    ensures |s| == n && forall q :: q in s <==> q.Second? && q.i == i && q.k < n
  {
    if n == 0 then {} else SecondRoles(i, n - 1) + {Second(i, n - 1)}
  }

  ghost function SectorSet(v: Volume, roles: set<Role>): set<nat> { set q | q in roles :: Loc(v, q) }

  /** `SectorsOf` counts exactly the different sectors that the tree of a file reaches below its inode sector. */
  lemma SectorsReached(v: Volume, i: nat, d: InodeData)
    requires Inv(v) && i in v.nodes && v.nodes[i] == NodeOf(d)
    ensures forall q :: q in RolesOf(v.nodes[i], i) <==> Live(v, q) && q.i == i && !q.Header?
    ensures |SectorSet(v, RolesOf(v.nodes[i], i))| == SectorsOf(d.length)
  {
    RolesLive(v, i);
    RolesCount(v.nodes[i], i);
    hide RolesOf, Live, Loc;
    ImageSize(v, RolesOf(v.nodes[i], i));
  }

  lemma RolesLive(v: Volume, i: nat)
    requires i in v.nodes
    ensures forall q :: q in RolesOf(v.nodes[i], i) <==> Live(v, q) && q.i == i && !q.Header?
  {
    hide DataRoles, SecondRoles;
  }

  lemma RolesCount(n: Node, i: nat)
    ensures |RolesOf(n, i)| == n.blocks + (if n.hasInd then 1 else 0) + (if n.hasDin then 1 else 0) + n.seconds
  {
    hide DataRoles, SecondRoles;
    var a := DataRoles(i, n.blocks) + SecondRoles(i, n.seconds);
    assert DataRoles(i, n.blocks) !! SecondRoles(i, n.seconds);
    var b := a + (if n.hasInd then {Ind(i)} else {});
    assert Ind(i) !in a && Din(i) !in b;
  }

  lemma {:induction false} ImageSize(v: Volume, roles: set<Role>)
    requires forall q, r :: q in roles && r in roles && Loc(v, q) == Loc(v, r) ==> q == r
    ensures |SectorSet(v, roles)| == |roles|
    decreases |roles|
  {
    hide Loc;
    if roles != {} {
      var r :| r in roles;
      var rest := roles - {r};
      ImageSize(v, rest);
      assert SectorSet(v, roles) == SectorSet(v, rest) + {Loc(v, r)};
      assert Loc(v, r) !in SectorSet(v, rest);
    }
  }

  /** Sectors that a growth marks although the grown file does not reach them. */
  function Orphans(length: nat, pos: nat, size: nat): int
  {
    SectorsOf(length) + Needed(length, pos, size) - SectorsOf(pos + size)
  }

  /** The ends at which growth takes exactly what it needs. */
  predicate TidyEnd(length: nat, end: nat)
  {
    SameBlock(length, end) || end == 512 || end == 129 * 512 || (end > 512 && end % 512 != 0)
  }

  /** Growth never takes too little, and it takes too much exactly at the other ends. */
  lemma NoOrphansIff(length: nat, pos: nat, size: nat)
    requires GrowthDomain(length, pos, size) && length <= pos + size && (length == pos + size ==> length == 0)
    ensures Orphans(length, pos, size) >= 0
    ensures Orphans(length, pos, size) == 0 <==> TidyEnd(length, pos + size)
  {
    hide SectorsOf, AcrossNeed, FarDomain;
    var end := pos + size;
    if SameBlock(length, end) {
      SameBlockSectors(length, end);
    } else if end < 129 * 512 {
      NearOrphans(length, end);
    } else if end == 129 * 512 {
      EdgeOrphans(length);
    } else if BytesToSectors(length) <= 129 {
      FirstFarOrphans(length, end);
    } else {
      FarOrphans(length, end);
    }
  }

  lemma SameBlockSectors(length: nat, end: nat)
    requires SameBlock(length, end) && length <= end
    ensures SectorsOf(length) == SectorsOf(end)
  {
    assert BytesToSectors(length) == BytesToSectors(end);
  }

  function Surplus(length: nat, end: nat): int
  {
    SectorsOf(length) + AcrossNeed(length, end) - SectorsOf(end)
  }

  lemma NearOrphans(length: nat, end: nat)
    requires length <= end < 129 * 512 && !SameBlock(length, end) && (length == end ==> length == 0)
    ensures Surplus(length, end) >= 0 && (Surplus(length, end) == 0 <==> TidyEnd(length, end))
  {
  }

  lemma EdgeOrphans(length: nat)
    requires length < 129 * 512
    ensures Surplus(length, 129 * 512) == 0
  {
  }

  lemma SectorCount(x: nat)
    ensures BytesToSectors(x) == x / 512 + (if x % 512 == 0 then 0 else 1)
  {
  }

  /** Second-level blocks, from the position of the last block. */
  lemma SecondCount(n: nat)
    requires 129 <= n
    ensures SecondsFor(n) == (n - 129) / 128 + (if (n - 129) % 128 == 0 then 0 else 1)
    ensures SecondsFor(n + 1) == (n - 129) / 128 + 1
  {
  }

  lemma FirstFarOrphans(length: nat, end: nat)
    requires length <= 129 * 512 < end && FarDomain(length, end)
    ensures Surplus(length, end) >= 0 && (Surplus(length, end) == 0 <==> TidyEnd(length, end))
  {
    hide BytesToSectors, SecondsFor;
    SectorCount(length);
    SectorCount(512);
    SectorCount(end);
    SecondCount(end / 512);
    FewBlocks(BytesToSectors(length));
  }

  lemma FewBlocks(n: nat)
    ensures n <= 129 ==> SecondsFor(n) == 0
  {
  }

  lemma FarOrphans(length: nat, end: nat)
    requires 129 * 512 < length < end && !SameBlock(length, end) && FarDomain(length, end)
    ensures Surplus(length, end) >= 0 && (Surplus(length, end) == 0 <==> TidyEnd(length, end))
  {
    hide BytesToSectors, SecondsFor;
    SectorCount(length);
    SectorCount(end);
    SecondCount(end / 512);
    SecondCount(BytesToSectors(length));
  }

  /** Creating an empty file, one of 100 bytes and one of two whole blocks all leave sectors behind. */
  lemma OrphanExamples()
    ensures Orphans(0, 0, 0) == 2 && Orphans(0, 0, 100) == 1 && Orphans(0, 0, 1024) == 1
    ensures GrowthDomain(0, 0, 0) && GrowthDomain(0, 0, 100) && GrowthDomain(0, 0, 1024)
  {
  }

  /** File contents padded with zeros to whole blocks. */
  ghost predicate Padded(v: Volume, i: nat, c: seq<byte>)
    requires i in v.nodes
  {
    |c| <= 512 * v.nodes[i].blocks && Flat(Blocks(v, i)) == c + Zeros(512 * v.nodes[i].blocks - |c|)
  }

  /** The next block of file `i` belongs in slot `k` of the index block in sector `at`. */
  ghost predicate NextBlockAt(v: Volume, i: nat, at: nat, k: nat)
  {
    && i in v.nodes
    && var r := Data(i, v.nodes[i].blocks);
       && NextBelow(v.nodes[i], i, r)
       && ParentOf(r) == Under(ParentOf(r).role, k)
       && Loc(v, ParentOf(r).role) == at < |v.view|
  }

  /** The first `length` bytes are `c`, and past a whole number of blocks only zeros follow `c`. */
  ghost predicate Holds(v: Volume, i: nat, length: nat, c: seq<byte>)
    requires i in v.nodes
  {
    if length % 512 == 0 then Padded(v, i, c)
    else |c| == length <= 512 * v.nodes[i].blocks && Flat(Blocks(v, i))[..length] == c
  }

  /** What growth leaves: the old bytes, then zeros; only the range about to be written may differ. */
  ghost predicate Grown(v: Volume, i: nat, c: seq<byte>, pos: nat, end: nat)
    requires i in v.nodes
  {
    && |c| <= end <= 512 * v.nodes[i].blocks
    && Flat(Blocks(v, i))[..|c|] == c
    && forall k :: |c| <= k < end && (k < pos || !SameBlock(|c|, end)) ==> Flat(Blocks(v, i))[k] == 0
  }

  /** A file whose last block already has room. */
  lemma GapGrown(v: Volume, i: nat, c: seq<byte>, pos: nat, end: nat)
    requires i in v.nodes && v.nodes[i].blocks == BytesToSectors(|c|) && Flat(Blocks(v, i))[..|c|] == c
    requires pos == |c| < end && SameBlock(|c|, end)
    ensures Grown(v, i, c, pos, end)
  {
  }

  /** The gap up to `pos` zeroed in the first block. */
  lemma GapZeroed(v: Volume, w: Volume, i: nat, c: seq<byte>, pos: nat, end: nat)
    requires i in v.nodes && v.nodes[i].blocks == BytesToSectors(|c|) && Flat(Blocks(v, i))[..|c|] == c
    requires |c| < pos <= 512 && pos <= end && SameBlock(|c|, end) && i in w.nodes && w.nodes[i].blocks == v.nodes[i].blocks
    requires Blocks(w, i) == Blocks(v, i)[0 := Patch(Blocks(v, i)[0], |c|, Zeros(pos - |c|))]
    ensures Grown(w, i, c, pos, end)
  {
    FlatPatch(Blocks(v, i), 0, |c|, Zeros(pos - |c|));
    var a, b := Flat(Blocks(v, i)), Flat(Blocks(w, i));
    assert b == Patch(a, |c|, Zeros(pos - |c|));
    assert b[..|c|] == a[..|c|];
  }

  lemma DinSpace(v: Volume, i: nat)
    requires Inv(v) && i in v.nodes && v.nodes[i].hasDin
    ensures Live(v, Din(i)) && Loc(v, Din(i)) == v.nodes[i].din < |v.view|
  {
  }

  /** A new second-level block changes no data. */
  lemma SecondKeeps(v: Volume, w: Volume, i: nat, a: nat, f: nat, c: seq<byte>)
    requires i in v.nodes && Extends(v, w, Second(i, a), f) && w.nodes == v.nodes[i := Count(v.nodes[i], Second(i, a))]
    ensures OnlyFile(v, w, i) && (Padded(v, i, c) ==> Padded(w, i, c))
  {
    hide Flat;
    KeepsMeansOnlyFile(v, w, i);
    assert Blocks(w, i) == Blocks(v, i);
  }

  class BlockStore {
    const cache: BufferCache
    const freeMap: FreeMap
    ghost var nodes: map<nat, Node>

    ghost function Vol(): Volume
      reads this, cache, freeMap
    {
      Volume(cache.view, freeMap.bits, nodes)
    }

    ghost predicate Valid()
      reads this, cache, freeMap
    {
      cache.Valid() && cache.removals < CACHE_SIZE && Inv(Vol())
    }

    constructor (device: seq<Block>)
      requires 2 <= |device| <= 0x1_0000_0000
      ensures Valid() && fresh(cache) && fresh(freeMap)
      ensures cache.view == device && nodes == map[]
      ensures |freeMap.bits| == |device| && forall k :: 0 <= k < |device| ==> freeMap.bits[k] == (k < 2)
    {
      cache := new BufferCache(device);
      freeMap := new FreeMap(|device|);
      nodes := map[];
    }

    /** A copy into the cached sector that holds block `b` of file `i`. */
    method PatchBlock(ghost i: nat, ghost b: nat, s: nat, ofs: nat, data: seq<byte>)
      requires Valid() && Live(Vol(), Data(i, b)) && s == Loc(Vol(), Data(i, b))
      requires ofs + |data| <= 512
      modifies cache
      ensures Valid() && OnlyFile(old(Vol()), Vol(), i)
      ensures Blocks(Vol(), i) == old(Blocks(Vol(), i))[b := Patch(old(Blocks(Vol(), i))[b], ofs, data)]
    {
      ghost var v := Vol();
      cache.WriteAt(s, ofs, data);
      DataWrite(v, Data(i, b), Patch(v.view[s], ofs, data));
      assert Vol() == v.(view := v.view[s := Patch(v.view[s], ofs, data)]);
      PatchedBlocks(v, Vol(), i, b, Patch(v.view[s], ofs, data));
    }

    /** `free_map_allocate` for one sector, as the index tree sees it. */
    method TakeSector() returns (ok: bool, f: word)
      requires Valid()
      modifies freeMap
      ensures ok <==> FreeCount(old(freeMap.bits)) > 0
      ensures ok ==> Fresh(old(Vol()), f) && freeMap.bits == old(freeMap.bits)[f := true]
      ensures ok ==> FreeCount(freeMap.bits) + 1 == FreeCount(old(freeMap.bits))
      ensures !ok ==> freeMap.bits == old(freeMap.bits)
    {
      f := 0;
      var s;
      ok, s := freeMap.AllocateOne();
      if ok { f := s; }
    }

    /** Takes a sector, stores it in slot `k` of the index block at `at`, zeroes it if it is data. */
    method FillSlot(ghost i: nat, ghost r: Role, at: nat, k: nat) returns (ok: bool, f: word)
      requires Valid() && i in nodes && NextBelow(nodes[i], i, r)
      requires ParentOf(r).slot == k < 128 && Loc(Vol(), ParentOf(r).role) == at < |cache.disk|
      modifies this, cache, freeMap
      ensures ok <==> FreeCount(old(freeMap.bits)) > 0
      ensures ok ==> Valid() && FreeCount(freeMap.bits) + 1 == FreeCount(old(freeMap.bits))
      ensures ok ==> Extends(old(Vol()), Vol(), r, f) && nodes == old(nodes)[i := Count(old(nodes)[i], r)]
    {
      ghost var v := Vol();
      var index := cache.ReadBlock(at);
      ok, f := TakeSector();
      if !ok { return; }
      index := Patch(index, 4 * k, ToLe32(f));
      cache.WriteAt(at, 0, index);
      nodes := nodes[i := Count(nodes[i], r)];
      AddSlot(v, i, r, f);
      assert Patch(v.view[at], 0, index) == index;
      assert Vol() == WithSlot(v, i, r, f);
    }

    /** One more zeroed data block below an index block (inode.c:267-281, 384-394). */
    method AppendBelow(ghost i: nat, at: nat, k: nat) returns (ok: bool)
      requires Valid() && NextBlockAt(Vol(), i, at, k)
      modifies this, cache, freeMap
      ensures ok <==> FreeCount(old(freeMap.bits)) > 0
      ensures ok ==> Valid() && FreeCount(freeMap.bits) + 1 == FreeCount(old(freeMap.bits))
      ensures ok ==> i in nodes && nodes[i] == old(nodes)[i].(blocks := old(nodes)[i].blocks + 1)
      ensures ok ==> OnlyFile(old(Vol()), Vol(), i) && Blocks(Vol(), i) == old(Blocks(Vol(), i)) + [ZERO_BLOCK]
    {
      hide Inv, OnlyFile, Coherent, Keeps;
      ghost var v := Vol();
      ghost var r := Data(i, nodes[i].blocks);
      var f;
      ok, f := FillSlot(i, r, at, k);
      if !ok { return; }
      ghost var w := Vol();
      PatchBlock(i, r.b, f, 0, ZERO_BLOCK);
      ZeroedBlock(v, w, Vol(), i);
    }

    /** `free_map_allocate (1, &inode->data.sp)` for an empty file (inode.c:220-223). */
    method NewSp(ghost i: nat, d: InodeData) returns (ok: bool, d': InodeData)
      requires Valid() && i in nodes && Pointers(d, nodes[i]) && nodes[i].blocks == 0
      modifies this, freeMap
      ensures ok <==> FreeCount(old(freeMap.bits)) > 0
      ensures ok ==> Valid() && FreeCount(freeMap.bits) + 1 == FreeCount(old(freeMap.bits))
      ensures ok ==> d' == d.(sp := d'.sp) && i in nodes && nodes[i] == old(nodes)[i].(sp := d'.sp, blocks := 1)
      ensures ok ==> OnlyFile(old(Vol()), Vol(), i)
    {
      ghost var v := Vol();
      d' := d;
      var f;
      ok, f := TakeSector();
      if !ok { return; }
      d' := d.(sp := f);
      nodes := nodes[i := nodes[i].(sp := f, blocks := 1)];
      AddSp(v, i, f);
      assert Vol() == WithSp(v, i, f);
      KeepsMeansOnlyFile(v, Vol(), i);
    }

    /** `free_map_allocate (1, &inode->data.ind)` (inode.c:236-239). */
    method NewInd(ghost i: nat, d: InodeData) returns (ok: bool, d': InodeData)
      requires Valid() && i in nodes && Pointers(d, nodes[i]) && !nodes[i].hasInd
      modifies this, freeMap
      ensures ok <==> FreeCount(old(freeMap.bits)) > 0
      ensures ok ==> Valid() && FreeCount(freeMap.bits) + 1 == FreeCount(old(freeMap.bits))
      ensures ok ==> d' == d.(ind := d'.ind) && i in nodes && nodes[i] == old(nodes)[i].(ind := d'.ind, hasInd := true)
      ensures ok ==> OnlyFile(old(Vol()), Vol(), i) && Blocks(Vol(), i) == old(Blocks(Vol(), i))
    {
      ghost var v := Vol();
      d' := d;
      var f;
      ok, f := TakeSector();
      if !ok { return; }
      d' := d.(ind := f);
      nodes := nodes[i := nodes[i].(ind := f, hasInd := true)];
      AddInd(v, i, f);
      assert Vol() == WithInd(v, i, f);
      KeepsMeansOnlyFile(v, Vol(), i);
    }

    /** `free_map_allocate (1, &inode->data.din)` (inode.c:323-324). */
    method NewDin(ghost i: nat, d: InodeData) returns (ok: bool, d': InodeData)
      requires Valid() && i in nodes && Pointers(d, nodes[i]) && !nodes[i].hasDin
      modifies this, freeMap
      ensures ok <==> FreeCount(old(freeMap.bits)) > 0
      ensures ok ==> Valid() && FreeCount(freeMap.bits) + 1 == FreeCount(old(freeMap.bits))
      ensures ok ==> d' == d.(din := d'.din) && i in nodes && nodes[i] == old(nodes)[i].(din := d'.din, hasDin := true)
      ensures ok ==> OnlyFile(old(Vol()), Vol(), i) && Blocks(Vol(), i) == old(Blocks(Vol(), i))
    {
      ghost var v := Vol();
      d' := d;
      var f;
      ok, f := TakeSector();
      if !ok { return; }
      d' := d.(din := f);
      nodes := nodes[i := nodes[i].(din := f, hasDin := true)];
      AddDin(v, i, f);
      assert Vol() == WithDin(v, i, f);
      KeepsMeansOnlyFile(v, Vol(), i);
    }

    /** Block 0: allocated if the file is empty, then zeroed from the old end (inode.c:220-233). */
    method GrowDirect(ghost i: nat, d: InodeData, length: nat, ghost c: seq<byte>) returns (ok: bool, d': InodeData)
      requires Valid() && i in nodes && length < 512 && nodes[i] == NodeFor(d.sp, d.ind, d.din, length)
      requires |c| == length && Flat(Blocks(Vol(), i))[..length] == c
      modifies this, cache, freeMap
      ensures ok <==> (length == 0 ==> FreeCount(old(freeMap.bits)) > 0)
      ensures ok ==> Valid() && FreeCount(freeMap.bits) + (if length == 0 then 1 else 0) == FreeCount(old(freeMap.bits))
      ensures ok ==> d' == d.(sp := d'.sp) && i in nodes && nodes[i] == Node(d'.sp, d.ind, d.din, 1, false, false, 0)
      ensures ok ==> OnlyFile(old(Vol()), Vol(), i) && Padded(Vol(), i, c)
    {
      hide Inv, OnlyFile, Coherent, Padded;
      ghost var v := Vol();
      ok, d' := true, d;
      if length == 0 {
        ok, d' := NewSp(i, d);
        if !ok { return; }
      }
      ghost var w := Vol();
      assert Live(w, Data(i, 0));
      PatchBlock(i, 0, d'.sp, length, Zeros(512 - length));
      PadTail(w, Vol(), i, c);
      OnlyFileTransitive(v, w, Vol(), i);
    }

    /** Zeroes the last block from byte `from` on, found in slot `k` of the index block at `at`. */
    method ZeroTail(ghost i: nat, at: nat, k: nat, from: nat, ghost c: seq<byte>)
      requires Valid() && i in nodes && 2 <= nodes[i].blocks && from < 512
      requires var p := ParentOf(Data(i, nodes[i].blocks - 1));
               p.Under? && p.slot == k && Loc(Vol(), p.role) == at
      requires |c| == 512 * (nodes[i].blocks - 1) + from && Flat(Blocks(Vol(), i))[..|c|] == c
      modifies cache
      ensures Valid() && OnlyFile(old(Vol()), Vol(), i) && Padded(Vol(), i, c)
    {
      ghost var v := Vol();
      ghost var q := Data(i, nodes[i].blocks - 1);
      assert Live(v, q);
      ParentLive(v, q);
      var index := cache.ReadBlock(at);
      PatchBlock(i, q.b, Le32(index, 4 * k), from, Zeros(512 - from));
      PadTail(v, Vol(), i, c);
    }

    /** `AppendBelow`, seen from the start `v` of a growth that pads contents `c`. */
    method AppendZero(ghost v: Volume, ghost i: nat, at: nat, k: nat, ghost c: seq<byte>) returns (ok: bool)
      requires Valid() && NextBlockAt(Vol(), i, at, k)
      requires OnlyFile(v, Vol(), i) && Padded(Vol(), i, c)
      modifies this, cache, freeMap
      ensures ok <==> FreeCount(old(freeMap.bits)) > 0
      ensures ok ==> Valid() && FreeCount(freeMap.bits) + 1 == FreeCount(old(freeMap.bits))
      ensures ok ==> i in nodes && nodes[i] == old(nodes)[i].(blocks := old(nodes)[i].blocks + 1)
      ensures ok ==> OnlyFile(v, Vol(), i) && Padded(Vol(), i, c)
    {
      hide Inv, OnlyFile, Padded, Coherent;
      ghost var w := Vol();
      ok := AppendBelow(i, at, k);
      if ok {
        PadBlock(w, Vol(), i, c);
        OnlyFileTransitive(v, w, Vol(), i);
      }
    }

    /** Adds zeroed blocks below `ind` until the file has `upto` of them. */
    method AppendSingle(ghost i: nat, d: InodeData, blockCurrent: nat, upto: nat, ghost c: seq<byte>) returns (ok: bool)
      requires Valid() && i in nodes && Pointers(d, nodes[i]) && nodes[i].hasInd
      requires 1 <= nodes[i].blocks == blockCurrent <= upto <= 129 && Padded(Vol(), i, c)
      modifies this, cache, freeMap
      ensures ok <==> FreeCount(old(freeMap.bits)) >= upto - blockCurrent
      ensures ok ==> Valid() && FreeCount(freeMap.bits) == FreeCount(old(freeMap.bits)) - (upto - blockCurrent)
      ensures ok ==> i in nodes && nodes[i] == old(nodes)[i].(blocks := upto)
      ensures ok ==> OnlyFile(old(Vol()), Vol(), i) && Padded(Vol(), i, c)
    {
      hide Inv, OnlyFile, Padded, Coherent, NextBlockAt;
      ghost var v := Vol();
      SameIsOnlyFile(v, i);
      var j := blockCurrent;
      while j < upto
        invariant blockCurrent <= j <= upto
        invariant Valid() && FreeCount(freeMap.bits) + j - blockCurrent == FreeCount(old(freeMap.bits))
        invariant i in nodes && nodes[i] == v.nodes[i].(blocks := j)
        invariant OnlyFile(v, Vol(), i) && Padded(Vol(), i, c)
      {
        IndLive(Vol(), i);
        ok := AppendZero(v, i, d.ind, j - 1, c);
        if !ok { return; }
        j := j + 1;
      }
      ok := true;
    }

    /**
     Zeroes the tail of the last block and adds zeroed blocks below `ind` until
     the file has `upto` blocks (inode.c:243-282 and 287-317).
     */
    method FillSingle(ghost i: nat, d: InodeData, length: nat, upto: nat, ghost c: seq<byte>) returns (ok: bool)
      requires Valid() && i in nodes && Pointers(d, nodes[i]) && nodes[i].hasInd
      requires 512 <= length && nodes[i].blocks == BytesToSectors(length) <= upto <= 129
      requires Holds(Vol(), i, length, c)
      modifies this, cache, freeMap
      ensures ok <==> FreeCount(old(freeMap.bits)) >= upto - old(nodes)[i].blocks
      ensures ok ==> Valid() && FreeCount(freeMap.bits) == FreeCount(old(freeMap.bits)) - (upto - old(nodes)[i].blocks)
      ensures ok ==> i in nodes && nodes[i] == old(nodes)[i].(blocks := upto)
      ensures ok ==> OnlyFile(old(Vol()), Vol(), i) && Padded(Vol(), i, c)
    {
      hide Inv, OnlyFile, Coherent;
      ghost var v := Vol();
      var blockCurrent := length / 512;
      if length % 512 != 0 {
        ZeroTail(i, d.ind, blockCurrent - 1, length % 512, c);
        blockCurrent := blockCurrent + 1;
      }
      ghost var w := Vol();
      ok := AppendSingle(i, d, blockCurrent, upto, c);
      if ok { OnlyFileTransitive(v, w, Vol(), i); }
    }

    /** Adds zeroed blocks below second-level block `a`, slots `low` up to `high` (inode.c:377-395). */
    method AppendDouble(ghost i: nat, d: InodeData, a: nat, low: nat, high: nat, ghost c: seq<byte>) returns (ok: bool)
      requires Valid() && i in nodes && Pointers(d, nodes[i]) && a < nodes[i].seconds
      requires low <= high <= 128 && nodes[i].blocks == 129 + 128 * a + low && Padded(Vol(), i, c)
      modifies this, cache, freeMap
      ensures ok <==> FreeCount(old(freeMap.bits)) >= high - low
      ensures ok ==> Valid() && FreeCount(freeMap.bits) == FreeCount(old(freeMap.bits)) - (high - low)
      ensures ok ==> i in nodes && nodes[i] == old(nodes)[i].(blocks := 129 + 128 * a + high)
      ensures ok ==> OnlyFile(old(Vol()), Vol(), i) && Padded(Vol(), i, c)
    {
      hide Inv, OnlyFile, Padded, Coherent, NextBlockAt;
      ghost var v := Vol();
      SameIsOnlyFile(v, i);
      var j := low;
      while j < high
        invariant low <= j <= high
        invariant Valid() && FreeCount(freeMap.bits) + j - low == FreeCount(old(freeMap.bits))
        invariant i in nodes && nodes[i] == v.nodes[i].(blocks := 129 + 128 * a + j)
        invariant OnlyFile(v, Vol(), i) && Padded(Vol(), i, c)
      {
        SecondLive(Vol(), i, a, j);
        var index := cache.ReadBlock(d.din);
        ok := AppendZero(v, i, Le32(index, 4 * a), j, c);
        if !ok { return; }
        j := j + 1;
      }
      ok := true;
    }

    /** A second-level index block for slot `mj` of `din` (inode.c:349-359). */
    method NewSecond(ghost i: nat, d: InodeData, mj: nat, ghost c: seq<byte>) returns (ok: bool)
      requires Valid() && i in nodes && Pointers(d, nodes[i]) && nodes[i].hasDin && nodes[i].seconds == mj < 128
      requires Padded(Vol(), i, c)
      modifies this, cache, freeMap
      ensures ok <==> FreeCount(old(freeMap.bits)) > 0
      ensures ok ==> Valid() && FreeCount(freeMap.bits) + 1 == FreeCount(old(freeMap.bits))
      ensures ok ==> i in nodes && nodes[i] == old(nodes)[i].(seconds := mj + 1)
      ensures ok ==> OnlyFile(old(Vol()), Vol(), i) && Padded(Vol(), i, c)
    {
      hide Inv, Coherent, OnlyFile, Padded, Extends;
      ghost var v := Vol();
      DinSpace(v, i);
      var f;
      ok, f := FillSlot(i, Second(i, mj), d.din, mj);
      if ok { SecondKeeps(v, Vol(), i, mj, f, c); }
    }

    /** Zeroes the tail of a file that reaches below `din` (inode.c:325-344). */
    method ZeroTailDouble(ghost i: nat, d: InodeData, length: nat, ghost c: seq<byte>)
      requires Valid() && i in nodes && Pointers(d, nodes[i])
      requires 129 * 512 < length && length % 512 != 0 && nodes[i].blocks == BytesToSectors(length)
      requires |c| == length && Flat(Blocks(Vol(), i))[..length] == c
      modifies cache
      ensures Valid() && OnlyFile(old(Vol()), Vol(), i) && Padded(Vol(), i, c)
    {
      var blockCurrent := length / 512;
      var a, j := (blockCurrent - 129) / 128, (blockCurrent - 129) % 128;
      assert Shaped(nodes[i]);
      SecondLive(Vol(), i, a, j);
      var index := cache.ReadBlock(d.din);
      ZeroTail(i, Le32(index, 4 * a), j, length % 512, c);
    }

    /**
     The nested loops of inode.c:372-396. The loop that should have allocated
     later second-level blocks (inode.c:361) never runs, so slot `a > mj` of
     `din` is unassigned when it is reached.
     */
    method AppendSeconds(ghost i: nat, d: InodeData, first: nat, block: nat, ghost c: seq<byte>) returns (ok: bool)
      requires Valid() && i in nodes && Pointers(d, nodes[i]) && 129 <= nodes[i].blocks == first <= block
      requires nodes[i].seconds == (first - 129) / 128 + 1 && Padded(Vol(), i, c)
      modifies this, cache, freeMap
      ensures ok <==> SameSecond(first, block) && FreeCount(old(freeMap.bits)) >= block + 1 - first
      ensures ok ==> Valid() && FreeCount(freeMap.bits) == FreeCount(old(freeMap.bits)) - (block + 1 - first)
      ensures ok ==> i in nodes && nodes[i] == old(nodes)[i].(blocks := block + 1)
      ensures ok ==> OnlyFile(old(Vol()), Vol(), i) && Padded(Vol(), i, c)
    {
      hide Inv, OnlyFile, Padded, Coherent;
      var mi, mj := (block - 129) / 128, (first - 129) / 128;
      var ni, nj := (block - 129) % 128, (first - 129) % 128;
      NodeShaped(Vol(), i);
      var a := mj;
      while a < mi + 1
        invariant mj <= a <= mi + 1 && a <= mj + 1
        invariant i in nodes && nodes[i].seconds == mj + 1
        invariant a == mj ==> Valid() && Vol() == old(Vol())
        invariant a > mj && mi == mj ==> Valid() && FreeCount(freeMap.bits) == FreeCount(old(freeMap.bits)) - (block + 1 - first)
        invariant a > mj && mi == mj ==> i in nodes && nodes[i] == old(nodes)[i].(blocks := block + 1)
        invariant a > mj && mi == mj ==> OnlyFile(old(Vol()), Vol(), i) && Padded(Vol(), i, c)
      {
        if a > mj {
          assert !Live(Vol(), Second(i, a));
          return false;
        }
        ok := AppendDouble(i, d, a, nj, if a == mi then ni + 1 else 128, c);
        if !ok { return; }
        a := a + 1;
      }
      ok := true;
    }

    /** Slot 0 of a second-level block means that the block itself is still missing. */
    method StartSecond(ghost i: nat, d: InodeData, mj: nat, nj: nat, ghost c: seq<byte>) returns (ok: bool)
      requires Valid() && i in nodes && Pointers(d, nodes[i]) && nodes[i].hasDin && Padded(Vol(), i, c)
      requires nodes[i].seconds == (if nj == 0 then mj else mj + 1) && (nj != 0 ==> mj < 128)
      modifies this, cache, freeMap
      ensures ok <==> mj < 128 && (nj == 0 ==> FreeCount(old(freeMap.bits)) > 0)
      ensures ok ==> Valid() && FreeCount(freeMap.bits) + (if nj == 0 then 1 else 0) == FreeCount(old(freeMap.bits))
      ensures ok ==> i in nodes && nodes[i] == old(nodes)[i].(seconds := mj + 1)
      ensures ok ==> OnlyFile(old(Vol()), Vol(), i) && Padded(Vol(), i, c)
    {
      hide Inv, OnlyFile, Padded, Coherent;
      ok := true;
      if nj == 0 {
        if mj >= 128 { return false; }  // past the end of the index block
        ok := NewSecond(i, d, mj, c);
      } else {
        SameIsOnlyFile(Vol(), i);
      }
    }

    /** The second-level block, if a new one starts here, and the data below it (inode.c:345-396). */
    method GrowDouble(ghost i: nat, d: InodeData, first: nat, block: nat, ghost c: seq<byte>) returns (ok: bool)
      requires Valid() && i in nodes && Pointers(d, nodes[i]) && nodes[i].hasDin
      requires 129 <= nodes[i].blocks == first <= block && nodes[i].seconds == SecondsFor(first) && Padded(Vol(), i, c)
      modifies this, cache, freeMap
      ensures ok <==> SameSecond(first, block) && FreeCount(old(freeMap.bits)) >= DoubleNeed(first, block)
      ensures ok ==> Valid() && FreeCount(freeMap.bits) == FreeCount(old(freeMap.bits)) - DoubleNeed(first, block)
      ensures ok ==> i in nodes && nodes[i] == old(nodes)[i].(blocks := block + 1, seconds := (first - 129) / 128 + 1)
      ensures ok ==> OnlyFile(old(Vol()), Vol(), i) && Padded(Vol(), i, c)
    {
      hide Inv, OnlyFile, Padded, Coherent;
      ghost var v := Vol();
      var mj, nj := (first - 129) / 128, (first - 129) % 128;
      SecondsNow(Vol(), i, mj, nj);
      ok := StartSecond(i, d, mj, nj, c);
      if !ok { return; }
      ghost var w := Vol();
      ok := AppendSeconds(i, d, first, block, c);
      if ok { OnlyFileTransitive(v, w, Vol(), i); }
    }

    /** Everything below `din` (inode.c:325-396). */
    method FillDouble(ghost i: nat, d: InodeData, length: nat, block: nat, ghost c: seq<byte>) returns (ok: bool)
      requires Valid() && i in nodes && Pointers(d, nodes[i]) && nodes[i].hasDin
      requires 129 * 512 <= length && nodes[i].blocks == BytesToSectors(length) <= block
      requires nodes[i].seconds == SecondsFor(nodes[i].blocks)
      requires Holds(Vol(), i, length, c)
      modifies this, cache, freeMap
      ensures ok <==> SameSecond(old(nodes)[i].blocks, block) && FreeCount(old(freeMap.bits)) >= DoubleNeed(old(nodes)[i].blocks, block)
      ensures ok ==> Valid() && FreeCount(freeMap.bits) == FreeCount(old(freeMap.bits)) - DoubleNeed(old(nodes)[i].blocks, block)
      ensures ok ==> i in nodes && nodes[i] == old(nodes)[i].(blocks := block + 1, seconds := (old(nodes)[i].blocks - 129) / 128 + 1)
      ensures ok ==> OnlyFile(old(Vol()), Vol(), i) && Padded(Vol(), i, c)
    {
      hide Inv, OnlyFile, Padded, Coherent;
      ghost var v := Vol();
      var blockCurrent := length / 512;
      if length % 512 != 0 {
        ZeroTailDouble(i, d, length, c);
        blockCurrent := blockCurrent + 1;
      }
      ghost var w := Vol();
      ok := GrowDouble(i, d, blockCurrent, block, c);
      if ok { OnlyFileTransitive(v, w, Vol(), i); }
    }

    /** The same-block branch, which mistakes the file length for an offset in the block (inode.c:210-219). */
    method GrowInPlace(ghost i: nat, d: InodeData, length: nat, pos: nat, ghost c: seq<byte>) returns (ok: bool)
      requires Valid() && i in nodes && Pointers(d, nodes[i]) && nodes[i].blocks == BytesToSectors(length)
      requires pos <= d.length && length < d.length && SameBlock(length, d.length)
      requires |c| == length && Flat(Blocks(Vol(), i))[..length] == c
      modifies cache
      ensures ok <==> pos == length || (length < 512 && length < pos)
      ensures ok ==> Valid() && OnlyFile(old(Vol()), Vol(), i) && Grown(Vol(), i, c, pos, d.length)
    {
      hide Inv, OnlyFile, Coherent, Flat, Blocks, Grown;
      ghost var v := Vol();
      GapGrown(v, i, c, length, d.length);
      var bytesWrite := pos - length;
      var sid := ByteToSector(i, d, length);
      if bytesWrite < 0 || (bytesWrite > 0 && length + bytesWrite > 512) {
        return false;  // the memset runs outside the 512-byte buffer
      }
      if bytesWrite > 0 {
        assert Live(v, Data(i, 0)) by { LastBlockLive(v, i, length); }
        PatchBlock(i, 0, sid, length, Zeros(bytesWrite));
        GapZeroed(v, Vol(), i, c, pos, d.length);
      } else {
        SameIsOnlyFile(v, i);
      }
      ok := true;
    }

    /** Lines 220-233: afterwards the file fills whole blocks or already had one. */
    method GrowStart(ghost i: nat, d: InodeData, length: nat, ghost c: seq<byte>)
      returns (ok: bool, d': InodeData, length': nat)
      requires Valid() && i in nodes && nodes[i] == NodeFor(d.sp, d.ind, d.din, length)
      requires |c| == length && Flat(Blocks(Vol(), i))[..length] == c
      modifies this, cache, freeMap
      ensures ok <==> (length == 0 ==> FreeCount(old(freeMap.bits)) > 0)
      ensures ok ==> Valid() && FreeCount(freeMap.bits) + (if length == 0 then 1 else 0) == FreeCount(old(freeMap.bits))
      ensures length' == Max(512, length)
      ensures ok ==> d' == d.(sp := d'.sp) && i in nodes && nodes[i] == NodeFor(d'.sp, d.ind, d.din, length')
      ensures ok ==> OnlyFile(old(Vol()), Vol(), i) && Holds(Vol(), i, length', c)
    {
      hide Inv, OnlyFile, Padded, Coherent;
      ok, d', length' := true, d, Max(512, length);
      if length / 512 < 1 {
        ok, d' := GrowDirect(i, d, length, c);
      } else {
        SameIsOnlyFile(Vol(), i);
        WholeIsPadded(Vol(), i, length, c);
      }
    }

    /** Lines 236-239. */
    method StartInd(ghost i: nat, d: InodeData, length: nat, ghost c: seq<byte>) returns (ok: bool, d': InodeData)
      requires Valid() && i in nodes && 512 <= length && nodes[i] == NodeFor(d.sp, d.ind, d.din, length)
      requires Holds(Vol(), i, length, c)
      modifies this, freeMap
      ensures ok <==> (length == 512 ==> FreeCount(old(freeMap.bits)) > 0)
      ensures ok ==> Valid() && FreeCount(freeMap.bits) + (if length == 512 then 1 else 0) == FreeCount(old(freeMap.bits))
      ensures ok ==> d' == d.(ind := d'.ind)
      ensures ok ==> i in nodes && nodes[i] == NodeFor(d.sp, d'.ind, d.din, length).(hasInd := true)
      ensures ok ==> OnlyFile(old(Vol()), Vol(), i) && Holds(Vol(), i, length, c)
    {
      hide Inv, OnlyFile, Coherent;
      ok, d' := true, d;
      if length == 512 {
        ok, d' := NewInd(i, d);
      } else {
        SameIsOnlyFile(Vol(), i);
      }
    }

    /** Lines 323-324. */
    method StartDin(ghost i: nat, d: InodeData, length: nat, ghost c: seq<byte>) returns (ok: bool, d': InodeData)
      requires Valid() && i in nodes && 129 * 512 <= length && nodes[i] == NodeFor(d.sp, d.ind, d.din, length)
      requires Holds(Vol(), i, length, c)
      modifies this, freeMap
      ensures ok <==> (length == 129 * 512 ==> FreeCount(old(freeMap.bits)) > 0)
      ensures ok ==> Valid() && FreeCount(freeMap.bits) + (if length == 129 * 512 then 1 else 0) == FreeCount(old(freeMap.bits))
      ensures ok ==> d' == d.(din := d'.din)
      ensures ok ==> i in nodes && nodes[i] == NodeFor(d.sp, d.ind, d'.din, length).(hasDin := true)
      ensures ok ==> OnlyFile(old(Vol()), Vol(), i) && Holds(Vol(), i, length, c)
    {
      hide Inv, OnlyFile, Coherent;
      ok, d' := true, d;
      if length == 129 * 512 {
        ok, d' := NewDin(i, d);
      } else {
        SameIsOnlyFile(Vol(), i);
      }
    }

    /** Fills the last slots of `ind` (lines 285-320); afterwards `length >= 129 * 512`. */
    method FinishSingle(ghost i: nat, d: InodeData, length: nat, ghost c: seq<byte>) returns (ok: bool, length': nat)
      requires Valid() && i in nodes && 512 <= length && nodes[i] == NodeFor(d.sp, d.ind, d.din, length).(hasInd := true)
      requires Holds(Vol(), i, length, c)
      modifies this, cache, freeMap
      ensures length' == Max(129 * 512, length)
      ensures ok <==> FreeCount(old(freeMap.bits)) >= Max(0, 129 - BytesToSectors(length))
      ensures ok ==> Valid() && FreeCount(freeMap.bits) == FreeCount(old(freeMap.bits)) - Max(0, 129 - BytesToSectors(length))
      ensures ok ==> i in nodes && nodes[i] == NodeFor(d.sp, d.ind, d.din, length')
      ensures ok ==> OnlyFile(old(Vol()), Vol(), i) && Holds(Vol(), i, length', c)
    {
      hide Inv, OnlyFile, Padded, Coherent;
      ok, length' := true, Max(129 * 512, length);
      if length < 129 * 512 {
        ok := FillSingle(i, d, length, 129, c);
      } else {
        SameIsOnlyFile(Vol(), i);
      }
    }

    /** Lines 285-397: growth that reaches block 129 or beyond. */
    method GrowFar(ghost i: nat, d: InodeData, length: nat, end: nat, ghost c: seq<byte>) returns (ok: bool, d': InodeData)
      requires Valid() && i in nodes && 512 <= length && nodes[i] == NodeFor(d.sp, d.ind, d.din, length).(hasInd := true)
      requires Holds(Vol(), i, length, c) && 129 * 512 <= end && length <= end && !SameBlock(length, end)
      modifies this, cache, freeMap
      ensures ok <==> FarDomain(length, end) && FreeCount(old(freeMap.bits)) >= FarNeed(length, end)
      ensures ok ==> Valid() && FreeCount(freeMap.bits) == FreeCount(old(freeMap.bits)) - FarNeed(length, end)
      ensures ok ==> d' == d.(din := d'.din) && i in nodes && Covers(nodes[i], d', end)
      ensures ok ==> OnlyFile(old(Vol()), Vol(), i) && Padded(Vol(), i, c)
    {
      hide Inv, OnlyFile, Padded, Coherent;
      ghost var v := Vol();
      var length';
      d' := d;
      ok, length' := FinishSingle(i, d, length, c);
      if !ok { return; }
      ghost var w := Vol();
      FarNumbers(length, end, length');
      var block, blockOfs := end / 512, end % 512;
      if block == 129 && blockOfs == 0 { return; }
      ok, d' := StartDin(i, d, length', c);
      if !ok { return; }
      OnlyFileTransitive(v, w, Vol(), i);
      w := Vol();
      ok := FillDouble(i, d', length', block, c);
      if ok {
        OnlyFileTransitive(v, w, Vol(), i);
        FarCovers(nodes[i], d', BytesToSectors(length'), end);
      }
    }

    /** Lines 240-397: the blocks below `ind`, and those below `din`. */
    method GrowIndexed(ghost i: nat, d: InodeData, length: nat, end: nat, ghost c: seq<byte>) returns (ok: bool, d': InodeData)
      requires Valid() && i in nodes && 512 <= length && nodes[i] == NodeFor(d.sp, d.ind, d.din, length).(hasInd := true)
      requires Holds(Vol(), i, length, c) && (length <= end || length == 512) && !SameBlock(length, end)
      modifies this, cache, freeMap
      ensures ok <==> AcrossDomain(length, end) && FreeCount(old(freeMap.bits)) >= IndexedNeed(length, end)
      ensures ok ==> Valid() && FreeCount(freeMap.bits) == FreeCount(old(freeMap.bits)) - IndexedNeed(length, end)
      ensures ok ==> d' == d.(din := d'.din) && i in nodes && Covers(nodes[i], d', end)
      ensures ok ==> OnlyFile(old(Vol()), Vol(), i) && Padded(Vol(), i, c)
    {
      hide Inv, OnlyFile, Padded, Coherent, Flat, Blocks, Holds, FarDomain, FarNeed;
      var block := end / 512;
      d' := d;
      if block < 129 {
        ok := FillSingle(i, d, length, block + 1, c);
      } else {
        ok, d' := GrowFar(i, d, length, end, c);
      }
    }

    /** Everything but the same-block branch (inode.c:220-397). */
    method GrowAcross(ghost i: nat, d: InodeData, length: nat, end: nat, ghost c: seq<byte>) returns (ok: bool, d': InodeData)
      requires Valid() && i in nodes && nodes[i] == NodeFor(d.sp, d.ind, d.din, length)
      requires |c| == length && Flat(Blocks(Vol(), i))[..length] == c
      requires length <= end && !SameBlock(length, end) && (length == end ==> length == 0)
      modifies this, cache, freeMap
      ensures ok <==> AcrossDomain(length, end) && FreeCount(old(freeMap.bits)) >= AcrossNeed(length, end)
      ensures ok ==> Valid() && FreeCount(freeMap.bits) == FreeCount(old(freeMap.bits)) - AcrossNeed(length, end)
      ensures ok ==> d' == d.(sp := d'.sp, ind := d'.ind, din := d'.din) && i in nodes && Covers(nodes[i], d', end)
      ensures ok ==> OnlyFile(old(Vol()), Vol(), i) && Padded(Vol(), i, c)
    {
      hide Inv, OnlyFile, Padded, Coherent, Flat, Blocks;
      ghost var v := Vol();
      var length';
      ok, d', length' := GrowStart(i, d, length, c);
      if !ok { return; }
      var block, blockOfs := end / 512, end % 512;
      if block == 1 && blockOfs == 0 { return; }
      ghost var w := Vol();
      ok, d' := StartInd(i, d', length', c);
      if !ok { return; }
      OnlyFileTransitive(v, w, Vol(), i);
      w := Vol();
      ok, d' := GrowIndexed(i, d', length', end, c);
      if ok { OnlyFileTransitive(v, w, Vol(), i); }
    }

    /** Surplus sectors stay marked but no longer belong to the file. */
    ghost method Settle(i: nat, d: InodeData, c: seq<byte>, pos: nat)
      requires Valid() && i in nodes && Covers(nodes[i], d, d.length) && Padded(Vol(), i, c)
      requires |c| <= d.length && !SameBlock(|c|, d.length)
      modifies this
      ensures Valid() && i in nodes && nodes[i] == NodeOf(d)
      ensures OnlyFile(old(Vol()), Vol(), i) && Grown(Vol(), i, c, pos, d.length)
    {
      hide Inv, OnlyFile, Padded, Coherent, Grown, Covers;
      CoversTrims(Vol(), i, d, c, pos);
      nodes := nodes[i := NodeOf(d)];
    }

    /**
     Grows the file to `pos + size` bytes. `ok` holds exactly for the growths
     the code gets right, and then the old contents are followed by zeros, no
     other file and no inode sector is touched, and exactly `Needed` sectors
     leave the free map.
     */
    method FileGrowth(ghost i: nat, inode: InodeData, pos: nat, size: nat) returns (ok: bool, d: InodeData)
      requires Valid() && i in nodes && nodes[i] == NodeOf(inode)
      requires inode.length <= pos + size < 0x8000_0000 && (inode.length == pos + size ==> inode.length == 0)
      modifies this, cache, freeMap
      ensures ok <==> GrowthDomain(inode.length, pos, size) &&
                      FreeCount(old(freeMap.bits)) >= Needed(inode.length, pos, size)
      ensures ok ==> Valid() && FreeCount(freeMap.bits) == FreeCount(old(freeMap.bits)) - Needed(inode.length, pos, size)
      ensures ok ==> d == inode.(length := pos + size, sp := d.sp, ind := d.ind, din := d.din)
      ensures ok ==> OnlyFile(old(Vol()), Vol(), i) && i in nodes && nodes[i] == NodeOf(d)
      ensures ok ==> Grown(Vol(), i, old(Flat(Blocks(Vol(), i)))[..inode.length], pos, pos + size)
    {
      hide Inv, OnlyFile, Padded, Coherent, Grown, AcrossDomain, AcrossNeed, Covers, Flat;
      ghost var v := Vol();
      var length, end: int := inode.length, pos + size;
      ghost var c := Flat(Blocks(v, i))[..length];
      d := inode.(length := end);
      if end / 512 == length / 512 && length % 512 != 0 {
        ok := GrowInPlace(i, d, length, pos, c);
      } else {
        ok, d := GrowAcross(i, d, length, end, c);
        if ok {
          ghost var w := Vol();
          Settle(i, d, c, pos);
          OnlyFileTransitive(v, w, Vol(), i);
        }
      }
    }

    /** The growth code on the three requests of `GrowthFailures`: it fails however many sectors are free. */
    method FailingGrowths(ghost i: nat, inode: InodeData) returns (ok: bool)
      requires Valid() && i in nodes && nodes[i] == NodeOf(inode) && inode.length in {100, 600, 129 * 512}
      modifies this, cache, freeMap
      ensures !ok
    {
      hide GrowthDomain, Inv, NodeOf;
      GrowthFailures();
      var d;
      match inode.length {
        case 100 => ok, d := FileGrowth(i, inode, 50, 100);
        case 600 => ok, d := FileGrowth(i, inode, 700, 10);
        case _ => ok, d := FileGrowth(i, inode, 129 * 512, 128 * 512);
      }
    }

    /** The sector that holds byte `pos` of the file, or -1 past its end. */
    method ByteToSector(ghost i: nat, d: InodeData, pos: nat) returns (s: int)
      requires Valid() && i in nodes && Pointers(d, nodes[i])
      requires pos < d.length ==> pos / 512 < nodes[i].blocks
      modifies cache
      ensures Valid() && Vol() == old(Vol())
      ensures pos < d.length ==> s == Loc(Vol(), Data(i, pos / 512)) && 0 <= s < |cache.disk|
      ensures pos >= d.length ==> s == -1
      // block 0 through `sp`, blocks 1 to 128 through `ind`, later ones through `din`
      ensures pos < d.length && pos < 512 ==> s == d.sp
      ensures pos < d.length && 512 <= pos < 129 * 512 ==>
                d.ind < |cache.view| && s == Le32(cache.view[d.ind], 4 * (pos / 512 - 1))
      ensures pos < d.length && 129 * 512 <= pos ==>
                && d.din < |cache.view|
                && var second := Le32(cache.view[d.din], 4 * ((pos / 512 - 129) / 128));
                   second < |cache.view| && s == Le32(cache.view[second], 4 * ((pos / 512 - 129) % 128))
    {
      if pos < d.length {
        var block := pos / 512;
        assert Live(Vol(), Data(i, block)) && Shaped(nodes[i]);
        if block < 1 {
          return d.sp;
        }
        ParentLive(Vol(), Data(i, block));
        if block < 129 {
          var index := cache.ReadBlock(d.ind);
          return Le32(index, 4 * (block - 1));
        }
        var index := cache.ReadBlock(d.din);
        var a, j := (block - 129) / 128, (block - 129) % 128;
        SecondLive(Vol(), i, a, j);
        index := cache.ReadBlock(Le32(index, 4 * a));
        return Le32(index, 4 * j);
      } else {
        return -1;
      }
    }
  }

  lemma SecondsNow(v: Volume, i: nat, mj: nat, nj: nat)
    requires Inv(v) && i in v.nodes && 129 <= v.nodes[i].blocks && v.nodes[i].seconds == SecondsFor(v.nodes[i].blocks)
    requires mj == (v.nodes[i].blocks - 129) / 128 && nj == (v.nodes[i].blocks - 129) % 128
    ensures v.nodes[i].seconds == if nj == 0 then mj else mj + 1
    ensures mj <= 128 && (nj != 0 ==> mj < 128)
  {
    assert Shaped(v.nodes[i]);
  }

  /** Finding the next free slot below `ind`. */
  lemma IndLive(v: Volume, i: nat)
    requires Inv(v) && i in v.nodes && v.nodes[i].hasInd && 1 <= v.nodes[i].blocks < 129
    ensures NextBlockAt(v, i, v.nodes[i].ind, v.nodes[i].blocks - 1)
  {
    assert Live(v, Ind(i));
  }

  /** Finding a second-level block through `din`. */
  lemma SecondLive(v: Volume, i: nat, a: nat, j: nat)
    requires Inv(v) && i in v.nodes && a < v.nodes[i].seconds && j < 128
    ensures a < 128 && v.nodes[i].din < |v.view| && Loc(v, Second(i, a)) == Le32(v.view[v.nodes[i].din], 4 * a)
    ensures Loc(v, Second(i, a)) < |v.view| && ParentOf(Data(i, 129 + 128 * a + j)) == Under(Second(i, a), j)
    ensures v.nodes[i].blocks == 129 + 128 * a + j ==> NextBlockAt(v, i, Le32(v.view[v.nodes[i].din], 4 * a), j)
  {
    assert Shaped(v.nodes[i]);
    assert Live(v, Din(i)) && Live(v, Second(i, a));
    ParentLive(v, Second(i, a));
  }

  lemma FarNumbers(length: nat, end: nat, length': nat)
    requires 129 * 512 <= end && length <= end && !SameBlock(length, end) && length' == Max(129 * 512, length)
    ensures BytesToSectors(length') == Max(129, BytesToSectors(length)) <= Max(129, end / 512)
    ensures length' == 129 * 512 <==> length <= 129 * 512
    ensures end / 512 == 129 && end % 512 == 0 <==> end == 129 * 512
    ensures end == 129 * 512 ==> length' == end
  {
  }

  lemma FarCovers(n: Node, d: InodeData, first: nat, end: nat)
    requires 129 <= first && 129 * 512 <= end && SameSecond(first, end / 512)
    requires n.blocks == end / 512 + 1 && n.seconds == (first - 129) / 128 + 1 && n.hasInd && n.hasDin && Pointers(d, n)
    ensures Covers(n, d, end)
  {
  }

  /** Dropping the surplus a growth allocated leaves exactly the shape of the new length. */
  lemma CoversTrims(v: Volume, i: nat, d: InodeData, c: seq<byte>, pos: nat)
    requires Inv(v) && i in v.nodes && Covers(v.nodes[i], d, d.length) && Padded(v, i, c)
    requires |c| <= d.length && !SameBlock(|c|, d.length)
    ensures var w := v.(nodes := v.nodes[i := NodeOf(d)]);
            Inv(w) && OnlyFile(v, w, i) && Grown(w, i, c, pos, d.length)
  {
    var n := NodeOf(d);
    var w := v.(nodes := v.nodes[i := n]);
    Trim(v, i, n);
    FlatTake(Blocks(v, i), n.blocks);
    assert forall k :: 0 <= k < |Flat(Blocks(w, i))| ==> Flat(Blocks(w, i))[k] == Flat(Blocks(v, i))[k];
  }

  lemma NodeShaped(v: Volume, i: nat)
    requires Inv(v) && i in v.nodes
    ensures Shaped(v.nodes[i])
  {
  }

  lemma SameIsOnlyFile(v: Volume, i: nat)
    ensures OnlyFile(v, v, i)
  {
  }

  lemma LastBlockLive(v: Volume, i: nat, length: nat)
    requires i in v.nodes && v.nodes[i].blocks == BytesToSectors(length) && length % 512 != 0
    ensures Live(v, Data(i, length / 512))
  {
  }

  lemma WholeIsPadded(v: Volume, i: nat, length: nat, c: seq<byte>)
    requires i in v.nodes && v.nodes[i].blocks == BytesToSectors(length)
    requires |c| == length && Flat(Blocks(v, i))[..length] == c
    ensures Holds(v, i, length, c)
  {
    if length % 512 == 0 {
      assert 512 * v.nodes[i].blocks == length;
      assert Flat(Blocks(v, i)) == Flat(Blocks(v, i))[..length];
      assert c == c + Zeros(0);
    }
  }

  /** Zeroing the rest of the last block pads the file. */
  lemma PadTail(v: Volume, w: Volume, i: nat, c: seq<byte>)
    requires i in v.nodes && i in w.nodes && w.nodes[i].blocks == v.nodes[i].blocks > 0
    requires var n := v.nodes[i].blocks - 1;
             && 512 * n <= |c| <= 512 * (n + 1)
             && Flat(Blocks(v, i))[..|c|] == c
             && Blocks(w, i) == Blocks(v, i)[n := Patch(Blocks(v, i)[n], |c| - 512 * n, Zeros(512 * (n + 1) - |c|))]
    ensures Padded(w, i, c)
  {
    var n := v.nodes[i].blocks - 1;
    FlatPatch(Blocks(v, i), n, |c| - 512 * n, Zeros(512 * (n + 1) - |c|));
    assert Flat(Blocks(w, i)) == Flat(Blocks(v, i))[..|c|] + Zeros(512 * (n + 1) - |c|);
  }

  /** A zeroed block appended to a padded file keeps it padded. */
  lemma PadBlock(v: Volume, w: Volume, i: nat, c: seq<byte>)
    requires i in v.nodes && i in w.nodes && Padded(v, i, c) && w.nodes[i].blocks == v.nodes[i].blocks + 1
    requires Blocks(w, i) == Blocks(v, i) + [ZERO_BLOCK]
    ensures Padded(w, i, c)
  {
    FlatAppend(Blocks(v, i), ZERO_BLOCK);
  }

  /** A sector that joined the file and was then zeroed is one more block of zeros. */
  lemma ZeroedBlock(v: Volume, w: Volume, u: Volume, i: nat)
    requires i in v.nodes && Keeps(v, w) && w.nodes == v.nodes[i := v.nodes[i].(blocks := v.nodes[i].blocks + 1)]
    requires |w.view| == |v.view| && OnlyFile(w, u, i) && u.nodes == w.nodes
    requires var n := v.nodes[i].blocks; Blocks(u, i) == Blocks(w, i)[n := Patch(Blocks(w, i)[n], 0, ZERO_BLOCK)]
    ensures OnlyFile(v, u, i) && Blocks(u, i) == Blocks(v, i) + [ZERO_BLOCK]
  {
    KeepsMeansOnlyFile(v, w, i);
    var n := v.nodes[i].blocks;
    assert Patch(Blocks(w, i)[n], 0, ZERO_BLOCK) == ZERO_BLOCK;
    assert Blocks(u, i) == Blocks(w, i)[..n] + [ZERO_BLOCK];
  }

  lemma PatchedBlocks(v: Volume, w: Volume, i: nat, b: nat, blk: Block)
    requires Live(v, Data(i, b)) && w.nodes == v.nodes && |w.view| == |v.view|
    requires forall r :: Live(v, r) ==> Loc(w, r) == Loc(v, r)
    requires forall r :: Live(v, r) ==> Stored(w, r) == if r == Data(i, b) then blk else Stored(v, r)
    ensures OnlyFile(v, w, i) && Blocks(w, i) == Blocks(v, i)[b := blk]
  {
    forall j, c: nat | j in v.nodes && c < v.nodes[j].blocks && (j, c) != (i, b)
      ensures Stored(w, Data(j, c)) == Stored(v, Data(j, c))
    {
      assert Live(v, Data(j, c));
    }
    forall j | j in v.nodes ensures Stored(w, Header(j)) == Stored(v, Header(j)) {
      assert Live(v, Header(j));
    }
  }
}
