/**
 The paging code: frame fields, swap bitmap, swap sectors and frame table
 changed in place. Every method is proved to be the step that `PageRuns` specifies.
 */
module Pager {
  import opened Bytes
  import opened Paging
  import opened PageRuns

  /** `Stuck` stands for a kernel panic: no free swap slot for a page that needs one. */
  datatype LoadResult = Came | Short | Stuck

  class Pager {
    var frames: map<nat, Frame>
    var table: seq<nat>
    var accessed: set<nat>
    var dirty: set<nat>
    var memory: map<nat, Page>
    var free: seq<nat>
    var swapBits: seq<bool>
    var swap: seq<Block>
    var files: map<nat, seq<byte>>

    ghost function State(): Space
      reads this
    {
      Space(frames, table, accessed, dirty, memory, free, swapBits, swap, files)
    }

    /** A pool of free pages, an empty swap device and the files of the system. */
    constructor (pool: seq<Page>, device: seq<Block>, fileContents: map<nat, seq<byte>>)
      ensures Valid(State()) && frames == map[] && files == fileContents && |free| == |pool|
    {
      frames, table, accessed, dirty := map[], [], {}, {};
      memory := map k | 0 <= k < |pool| :: pool[k];
      free := seq(|pool|, (k: nat) => k);
      swapBits, swap := seq(|device| / 8, _ => false), device;
      files := fileContents;
      new;
      forall k | k in memory.Keys ensures k in free { assert free[k] == k; }
      assert memory.Keys == ElementsOf(free);
      DistinctSize(free);
    }

    /** `sout`: the lowest free slot receives the page, sector by sector. */
    method Sout(page: Page) returns (ok: bool, index: nat)
      requires 8 * |swapBits| <= |swap|
      modifies this`swapBits, this`swap
      ensures ok <==> LowestFree(old(swapBits)) < |old(swapBits)|
      ensures ok ==> index == LowestFree(old(swapBits))
      ensures ok ==> swapBits == old(swapBits)[index := true] && swap == StorePage(old(swap), index, page)
      ensures !ok ==> swapBits == old(swapBits) && swap == old(swap)
    {
      hide LowestFree;
      index := 0;
      while index < |swapBits| && swapBits[index]
        invariant 0 <= index <= |swapBits|
        invariant forall j :: 0 <= j < index ==> swapBits[j]
      {
        index := index + 1;
      }
      LowestFreeIs(swapBits, index);
      if index == |swapBits| { return false, index; }
      swapBits := swapBits[index := true];
      ghost var before := swap;
      var i := 0;
      while i < 8
        invariant 0 <= i <= 8 && swap == StoreSectors(before, index, page, i)
        invariant swapBits == old(swapBits)[index := true]
      {
        swap := swap[8 * index + i := Sector(page, i)];
        i := i + 1;
      }
      ok := true;
    }

    /** `sback`: the slot is released and its eight sectors are read into the page. */
    method Sback(index: nat) returns (page: Page)
      requires index < |swapBits| && 8 * |swapBits| <= |swap|
      modifies this`swapBits
      ensures swapBits == old(swapBits)[index := !old(swapBits)[index]]
      ensures page == SlotPage(swap, index)
    {
      swapBits := swapBits[index := !swapBits[index]];
      var bytes: seq<byte> := [];
      var i := 0;
      while i < 8
        invariant 0 <= i <= 8 && |bytes| == 512 * i
        invariant forall k :: 0 <= k < 512 * i ==> bytes[k] == swap[8 * index + k / 512][k % 512]
      {
        bytes := bytes + swap[8 * index + i];
        i := i + 1;
      }
      page := bytes;
    }

    /** Second chance over the frame table: accessed bits are cleared on the way to the victim. */
    method ChooseVictim() returns (k: nat)
      requires table != [] && Distinct(table)
      modifies this`accessed
      ensures k == Choice(table, old(accessed), dirty) && k < |table|
      ensures accessed == old(accessed) - set j | 0 <= j < FirstIdle(table, old(accessed), dirty) :: table[j]
    {
      hide FirstIdle;
      k := 0;
      ghost var start := accessed;
      while k < |table| && (table[k] in accessed || table[k] in dirty)
        invariant 0 <= k <= |table|
        invariant accessed == start - set j | 0 <= j < k :: table[j]
        invariant forall j :: 0 <= j < k ==> table[j] in start || table[j] in dirty
      {
        if table[k] in accessed {
          accessed := accessed - {table[k]};
        }
        k := k + 1;
      }
      FirstIdleIs(table, start, dirty, k);
      if k == |table| { k := 0; }
    }

    /**
     `evict`. Unless the swap device is full, one page leaves memory and every
     page keeps its contents, except for the tail of a mapped page that is
     written back.
     */
    method Evict() returns (ok: bool)
      requires Valid(State()) && table != []
      modifies this
      // the victim: the first page neither accessed nor dirty, or the head if there is none
      ensures var v, bits := VictimIndex(old(State())), old(accessed) + old(dirty);
              && (forall j :: 0 <= j < v ==> old(table)[j] in bits)
              && (old(table)[v] in bits ==> v == 0 && forall j :: 0 <= j < |old(table)| ==> old(table)[j] in bits)
      ensures ok ==> old(table)[VictimIndex(old(State()))] !in table && |table| == |old(table)| - 1
      ensures ok <==> CanPutAway(old(State()), VictimOf(old(State())))
      ensures VictimOf(old(State())) in old(frames) && (ok <==> PlaceFor(old(State()), VictimOf(old(State()))))
      ensures ok ==> WayOut(old(State()), State(), VictimOf(old(State())))
      ensures ok ==> State() == EvictStep(old(State())) && Valid(State())
      ensures ok ==> Carries(old(State()), State(), VictimLost(old(State())))
    {
      hide Valid, Logical, Survives, LowestFree, Choice, Evicted, Carries, VictimLost, FirstIdle;
      ghost var p := State();
      TableDistinct(p);
      var k := ChooseVictim();
      assert State() == Cleared(p);
      BitsAccessed(p, State());
      EvictDefined(State(), k);
      PlaceForIff(p, table[k]);
      ok := PutAway(k);
      if ok {
        EvictStepKeeps(p);
        ClearedReady(p);
        EvictFrames(Cleared(p), k);
        Dropped(p.table, k);
      }
    }

    /** What `evict` does with the victim it has chosen (swap.c:88-125). */
    method PutAway(k: nat) returns (ok: bool)
      requires Valid(State()) && k < |table| && table[k] in frames
      modifies this
      ensures ok <==> (NeedsSlot(old(State()), old(table)[k]) ==> LowestFree(old(swapBits)) < |old(swapBits)|)
      ensures ok ==> EvictReady(old(State()), k) && State() == Evicted(old(State()), k)
      ensures ok ==> WayOut(old(State()), State(), old(table)[k])
    {
      hide TableOk, MemoryOk, SwapOk, FilesOk, CleanOk, StorePage, LowestFree;
      ghost var q := State();
      EvictDefined(q, k);
      var v := table[k];
      var f := frames[v];
      if f.kind == MMAP {
        if v in dirty {
          files := files[f.file := Patch(files[f.file], f.ofs, memory[f.kpage][..f.readBytes])];
        }
        frames := frames[v := f.(load := false)];
      } else if f.kind != FILE || v in dirty {
        var index;
        ok, index := Sout(memory[f.kpage]);
        if !ok { return; }
        frames := frames[v := f.(load := false, kind := SWAP, index := index)];
      } else {
        frames := frames[v := f.(load := false)];
      }
      table := table[..k] + table[k + 1..];
      free := free + [f.kpage];
      ok := true;
    }

    /** Evicts until the pool has a free page; one eviction is enough. */
    method GetPage() returns (ok: bool)
      requires Valid(State())
      modifies this
      ensures ok <==> HasRoom(old(State()))
      ensures ok <==> old(free) != [] || (old(table) != [] && PlaceFor(old(State()), VictimOf(old(State()))))
      ensures ok ==> State() == Room(old(State())) && Valid(State()) && free != []
    {
      hide Valid, EvictStep, Choice, CanPutAway, VictimLost, Carries;
      ok := true;
      if free == [] {
        if table == [] { return false; }
        ghost var p := State();
        ok := Evict();
        if ok { RoomKeeps(p); }
      }
    }

    /** `file_back`: fresh from the file, with zeros behind; nothing is installed if the file is too short. */
    method FileBack(u: nat) returns (r: LoadResult)
      requires Absent(State(), u) && frames[u].kind != SWAP
      modifies this
      ensures (r.Stuck? <==> !HasRoom(old(State()))) && (r.Came? <==> CanLoad(old(State()), u))
      ensures r.Came? ==> State() == LoadStep(old(State()), u) && Valid(State())
      ensures r.Short? ==> State() == Room(old(State())) && Valid(State())
    {
      hide TableOk, MemoryOk, SwapOk, FilesOk, CleanOk, Image, Readable, InFile, HasRoom, SameSizes, Room, RoomLost, Logical, Survives, SameKinds;
      ghost var p := State();
      var ok := GetPage();
      if !ok { return Stuck; }
      RoomKeeps(p);
      SizesReadable(files, p.files, frames[u]);
      FileFacts(State(), u);
      var f := frames[u];
      ReadableIs(files, f);
      if f.readBytes > 0 && !InFile(files, f) { return Short; }
      LoadStepKeeps(p, u);
      var kpage := free[0];
      var page := if f.readBytes == 0 then Zeros(4096)
                  else files[f.file][f.ofs..f.ofs + f.readBytes] + Zeros(4096 - f.readBytes);
      ImageIs(files, f, page);
      Install(u, kpage, page);
      r := Came;
    }

    /** `page_back`: the swap slot is read and released. */
    method PageBack(u: nat) returns (r: LoadResult)
      requires Absent(State(), u) && frames[u].kind == SWAP
      modifies this
      ensures r == if HasRoom(old(State())) then Came else Stuck
      ensures r.Came? ==> State() == LoadStep(old(State()), u) && Valid(State())
    {
      hide TableOk, MemoryOk, SwapOk, FilesOk, CleanOk, HasRoom, SameSizes, Room, RoomLost, Logical, Survives, SameKinds, SlotPage;
      ghost var p := State();
      var ok := GetPage();
      if !ok { return Stuck; }
      RoomKeeps(p);
      LoadStepKeeps(p, u);
      SlotMarked(State(), u);
      SlotKnown(State(), u);
      var kpage := free[0];
      var page := Sback(frames[u].index);
      Install(u, kpage, page);
      r := Came;
    }

    /** `install_page` with the frame's new page, and the frame joins the table. */
    method Install(u: nat, kpage: nat, page: Page)
      requires u in frames && free != [] && kpage == free[0]
      modifies this
      ensures State() == Installed(old(State()), u, page)
    {
      memory := memory[kpage := page];
      free := free[1..];
      frames := frames[u := frames[u].(load := true, kpage := kpage)];
      table := table + [u];
      accessed, dirty := accessed - {u}, dirty - {u};
    }

    /** `load_back` on a page fault. */
    method LoadBack(u: nat) returns (r: LoadResult)
      requires Absent(State(), u)
      modifies this
      ensures (r.Stuck? <==> !HasRoom(old(State()))) && (r.Came? <==> CanLoad(old(State()), u))
      ensures r.Came? <==> HasRoom(old(State())) && (old(frames)[u].kind == SWAP || AllThere(old(files), old(frames)[u]))
      ensures r.Came? ==> State() == LoadStep(old(State()), u) && Valid(State()) && Loaded(State(), u)
      ensures r.Came? ==> Carries(old(State()), State(), RoomLost(old(State())))
      ensures r.Short? ==> State() == Room(old(State())) && Valid(State())
    {
      hide Valid, HasRoom, LoadStep, Room, Carries, RoomLost;
      ghost var p := State();
      match frames[u].kind {
        case FILE => r := FileBack(u);
        case MMAP => r := FileBack(u);
        case SWAP => r := PageBack(u);
      }
      if r.Came? { LoadStepKeeps(p, u); }
    }

    /** `frame_table_insert` through `install_file`, for a page of a program or a mapping: it is read on its first fault. */
    method InsertFile(u: nat, kind: PageType, file: nat, ofs: nat, readBytes: nat)
      requires Valid(State()) && u !in frames && kind != SWAP && FitsBeside(State(), Frame(kind, false, 0, -1, file, ofs, readBytes))
      modifies this
      ensures Valid(State()) && frames == old(frames)[u := Frame(kind, false, 0, -1, file, ofs, readBytes)]
      ensures Logical(State(), u) == Image(files, frames[u]) && files == old(files)
      ensures forall v :: v in old(frames) ==> Logical(State(), v) == Logical(old(State()), v)
    {
      hide Valid, Logical, FitsBeside;
      ghost var p := State();
      frames := frames[u := Frame(kind, false, 0, -1, file, ofs, readBytes)];
      MappedKeeps(p, u, frames[u]);
      assert State() == Mapped(p, u, frames[u]);
    }

    /** `frame_table_insert` through `install_frame`, for a zeroed stack page. */
    method InsertStack(u: nat) returns (ok: bool)
      requires Valid(State()) && u !in frames
      modifies this
      ensures ok <==> HasRoom(old(State()))
      ensures ok ==> State() == Step(old(State()), Grow(u)) && Valid(State())
      ensures ok ==> Contents(State()) == CutOff(old(State()), RoomLost(old(State())))[u := Zeros(PGSIZE)]
    {
      hide Valid, Logical, HasRoom, Room, RoomLost, Contents, CutOff;
      ghost var p := State();
      ok := GetPage();
      if !ok { return; }
      RoomKeeps(p);
      ghost var q := State();
      frames := frames[u := STACK_FRAME];
      Install(u, free[0], Zeros(PGSIZE));
      assert State() == StackAdded(q, u);
      GrowExact(p, u);
      CutKeys(p, RoomLost(p));
    }

    /** A store by the process into a resident page. */
    method UserWrite(u: nat, ofs: nat, data: seq<byte>)
      requires Valid(State()) && Loaded(State(), u) && ofs + |data| <= PGSIZE
      modifies this
      ensures State() == Step(old(State()), Write(u, ofs, data)) && Valid(State()) && frames == old(frames)
      ensures forall v :: v in frames ==>
                Logical(State(), v) == if v == u then Patch(Logical(old(State()), u), ofs, data) else Logical(old(State()), v)
    {
      hide Valid, Logical;
      StoredKeeps(State(), u, ofs, data);
      var kpage := frames[u].kpage;
      memory := memory[kpage := Patch(memory[kpage], ofs, data)];
      accessed, dirty := accessed + {u}, dirty + {u};
    }

    /** `frame_free` of an unshared frame. */
    method FrameFree(u: nat)
      requires Valid(State()) && u in frames
      modifies this
      ensures State() == Freed(old(State()), u) && Valid(State()) && frames == old(frames) - {u}
      ensures forall v :: v in frames ==> Logical(State(), v) == Logical(old(State()), v)
    {
      hide TableOk, MemoryOk, SwapOk, FilesOk, CleanOk, Logical;
      ghost var p := State();
      FreedKeeps(p, u);
      FreeFacts(p, u);
      var f := frames[u];
      if f.load {
        var k := 0;
        while k < |table| && table[k] != u
          invariant 0 <= k <= |table| && u !in table[..k]
        {
          k := k + 1;
        }
        PositionIs(table, u, k);
        table := table[..k] + table[k + 1..];
        free := free + [f.kpage];
      } else if f.kind != FILE && f.index != -1 {
        swapBits := swapBits[f.index := !swapBits[f.index]];
      }
      frames := frames - {u};
      assert State() == Freed(p, u);
    }
  }

  /** The file has all the bytes the page needs. */
  predicate AllThere(files: map<nat, seq<byte>>, f: Frame)
  {
    f.readBytes == 0 || (f.file in files && f.ofs + f.readBytes <= |files[f.file]|)
  }

  /** There is somewhere for the page to go: its file, nowhere because it is clean, or a free swap slot. */
  ghost predicate PlaceFor(p: Space, v: nat)
  {
    && v in p.frames
    && (|| p.frames[v].kind == MMAP || (p.frames[v].kind == FILE && v !in p.dirty)
        || exists i :: 0 <= i < |p.swapBits| && !p.swapBits[i])
  }

  lemma PlaceForIff(p: Space, v: nat)
    requires v in p.frames
    ensures PlaceFor(p, v) <==> CanPutAway(p, v)
  {
    hide LowestFree;
    if LowestFree(p.swapBits) < |p.swapBits| { assert !p.swapBits[LowestFree(p.swapBits)]; }
  }

  /**
   What happens to the victim: a mapped page goes to its file if it is dirty, a
   clean file page nowhere, and everything else to a swap slot that was free.
   */
  ghost predicate WayOut(p: Space, q: Space, v: nat)
  {
    && v in p.frames && v in q.frames
    && var f, g := p.frames[v], q.frames[v];
       if f.kind == MMAP && v in p.dirty then
         && f.kpage in p.memory && InFile(p.files, f) && f.readBytes <= PGSIZE
         && q.swapBits == p.swapBits && g == f.(load := false)
         && q.files == p.files[f.file := Patch(p.files[f.file], f.ofs, p.memory[f.kpage][..f.readBytes])]
       else if f.kind == MMAP || (f.kind == FILE && v !in p.dirty) then
         q.swapBits == p.swapBits && q.files == p.files && g == f.(load := false)
       else
         && q.files == p.files && g == f.(load := false, kind := SWAP, index := g.index)
         && 0 <= g.index < |p.swapBits| && !p.swapBits[g.index] && q.swapBits == p.swapBits[g.index := true]
  }

  lemma {:induction false} LowestFreeIs(bits: seq<bool>, i: nat)
    requires i <= |bits| && (forall j :: 0 <= j < i ==> bits[j]) && (i < |bits| ==> !bits[i])
    ensures LowestFree(bits) == i
  {
  }

  lemma {:induction false} FirstIdleIs(table: seq<nat>, accessed: set<nat>, dirty: set<nat>, k: nat)
    requires k <= |table| && (forall j :: 0 <= j < k ==> table[j] in accessed || table[j] in dirty)
    requires k < |table| ==> table[k] !in accessed && table[k] !in dirty
    ensures FirstIdle(table, accessed, dirty) == k
  {
  }

  lemma TableDistinct(p: Space)
    requires Valid(p)
    ensures Distinct(p.table)
  {
  }

  lemma FileFacts(p: Space, u: nat)
    requires FilesOk(p) && u in p.frames && p.frames[u].kind != SWAP
    ensures p.frames[u].readBytes <= PGSIZE
  {
  }

  lemma ReadableIs(files: map<nat, seq<byte>>, f: Frame)
    ensures Readable(files, f) <==> f.readBytes == 0 || InFile(files, f)
    ensures InFile(files, f) ==> f.file in files && f.ofs + f.readBytes <= |files[f.file]|
  {
  }

  lemma ImageIs(files: map<nat, seq<byte>>, f: Frame, page: Page)
    requires f.readBytes <= PGSIZE && Readable(files, f)
    requires page == if f.readBytes == 0 then Zeros(4096) else files[f.file][f.ofs..f.ofs + f.readBytes] + Zeros(4096 - f.readBytes)
    ensures page == Image(files, f)
  {
    if f.readBytes == 0 {
      assert Image(files, f) == Zeros(0) + Zeros(4096) || Image(files, f) == files[f.file][f.ofs..f.ofs] + Zeros(4096);
    }
  }

  lemma SlotMarked(p: Space, u: nat)
    requires SwapOk(p) && SwappedOut(p, u)
    ensures 0 <= p.frames[u].index < |p.swapBits| && p.swapBits[p.frames[u].index]
  {
  }

  lemma FreeFacts(p: Space, u: nat)
    requires Valid(p) && u in p.frames
    ensures p.frames[u].load ==> u in p.table
    ensures !p.frames[u].load && p.frames[u].kind != FILE ==> p.frames[u].index == -1 || 0 <= p.frames[u].index < |p.swapBits|
  {
  }

  lemma {:induction false} PositionIs(s: seq<nat>, u: nat, k: nat)
    requires k <= |s| && u !in s[..k] && (k < |s| ==> s[k] == u)
    ensures Position(s, u) == k
  {
    if k > 0 {
      assert s[..k][0] == s[0];
      assert s[1..][..k - 1] == s[..k][1..];
      PositionIs(s[1..], u, k - 1);
    }
  }

  // ----- runs -----

  /** Exactly which operations are blocked: no page can be freed, or the file is too short. */
  lemma BlockedIff(p: Space, op: PageOp)
    requires Valid(p)
    ensures var room := p.free != [] || (p.table != [] && PlaceFor(p, VictimOf(p)));
            Blocked(p, op) <==>
            match op
            case Write(u, ofs, data) =>
              u in p.frames && !p.frames[u].load && ofs + |data| <= 4096 &&
              !(room && (p.frames[u].kind == SWAP || AllThere(p.files, p.frames[u])))
            case Fault(u) =>
              u in p.frames && !p.frames[u].load && !(room && (p.frames[u].kind == SWAP || AllThere(p.files, p.frames[u])))
            case Reclaim => p.table != [] && !PlaceFor(p, VictimOf(p))
            case Grow(u) => u !in p.frames && !room
            case Discard(_) => false
  {
    hide TableOk, MemoryOk, SwapOk, FilesOk, CleanOk, Choice, PlaceFor, CanPutAway;
    if p.table != [] {
      VictimKnown(p);
      PlaceForIff(p, VictimOf(p));
    }
  }

  lemma VictimKnown(p: Space)
    requires TableOk(p) && p.table != []
    ensures VictimOf(p) in p.frames
  {
    assert VictimOf(p) in p.table;
  }

  /** A store by the process, with the page fault that precedes it if the page is not resident. */
  method Access(pager: Pager, u: nat, ofs: nat, data: seq<byte>) returns (ok: bool)
    requires Valid(pager.State()) && u in pager.frames && ofs + |data| <= PGSIZE
    modifies pager
    ensures ok <==> !Blocked(old(pager.State()), Write(u, ofs, data))
    ensures ok ==> pager.State() == Step(old(pager.State()), Write(u, ofs, data)) && Valid(pager.State())
  {
    hide Valid, CanLoad, Carries, RoomLost, LoadStep, Logical, Stored, Room, HasRoom;
    if !pager.frames[u].load {
      var r := pager.LoadBack(u);
      if !r.Came? { return false; }
    }
    pager.UserWrite(u, ofs, data);
    ok := true;
  }

  /** One operation of the code is one step of the specification. */
  method Perform(pager: Pager, op: PageOp) returns (ok: bool)
    requires Valid(pager.State())
    modifies pager
    ensures ok <==> !Blocked(old(pager.State()), op)
    ensures ok ==> pager.State() == Step(old(pager.State()), op) && Valid(pager.State())
  {
    hide Valid, CanLoad, HasRoom, CanPutAway, Carries, RoomLost, VictimLost, LoadStep, EvictStep, Room, Logical, Contents, CutOff, Freed;
    ok := true;
    match op {
      case Write(u, ofs, data) =>
        if u in pager.frames && ofs + |data| <= PGSIZE { ok := Access(pager, u, ofs, data); }
      case Reclaim =>
        if pager.table != [] { ok := pager.Evict(); }
      case Fault(u) =>
        if u in pager.frames && !pager.frames[u].load {
          var r := pager.LoadBack(u);
          ok := r.Came?;
        }
      case Grow(u) =>
        if u !in pager.frames { ok := pager.InsertStack(u); }
      case Discard(u) =>
        if u in pager.frames { pager.FrameFree(u); }
    }
  }

  /**
   Whole runs. The code runs exactly up to the first blocked operation, in the
   specified states, and then every page is that of a process that was never
   paged, except for zeros behind the file range of the mapped pages in `LostIn`.
   */
  method RunPages(pager: Pager, ops: seq<PageOp>) returns (done: nat)
    requires Valid(pager.State())
    modifies pager
    ensures done <= |ops| && Runs(old(pager.State()), ops, done)
    ensures done < |ops| ==> Blocked(After(old(pager.State()), ops, done), ops[done])
    ensures done == |ops| ==>
              var p := old(pager.State());
              && pager.State() == After(p, ops, done)
              && Faithful(pager.State(), RefRun(Contents(p), ops, done), LostIn(p, ops, done))
  {
    hide Valid, Faithful, Blocked, Step, RefRun, Contents, LostIn;
    done := 0;
    ghost var p := pager.State();
    while done < |ops|
      invariant done <= |ops| && Valid(pager.State()) && pager.State() == After(p, ops, done) && Runs(p, ops, done)
    {
      var ok := Perform(pager, ops[done]);
      if !ok { return; }
      done := done + 1;
    }
    Transparent(p, ops, done);
  }
}
