/**
 Whole runs of the paging code, as functions of the snapshot. The reference is a
 process whose pages never leave memory; what eviction may cost a mapped page is
 tracked exactly.
 */
module PageRuns {
  import opened Bytes
  import opened Paging

  // ----- making room -----

  /** The accessed bits that `evict` clears on its way. */
  function Cleared(p: Space): Space
  {
    p.(accessed := p.accessed - set j | 0 <= j < FirstIdle(p.table, p.accessed, p.dirty) :: p.table[j])
  }

  ghost predicate CanEvictNow(p: Space)
  {
    Valid(p) && p.table != [] && CanPutAway(p, VictimOf(p))
  }

  lemma ClearedReady(p: Space)
    requires CanEvictNow(p)
    ensures CanEvict(Cleared(p), VictimIndex(p)) && EvictReady(Cleared(p), VictimIndex(p))
    ensures forall u :: u in p.frames ==> Logical(Cleared(p), u) == Logical(p, u) && Survives(Cleared(p), u) == Survives(p, u)
  {
    hide Valid, Logical, Survives, FirstIdle, LowestFree, Choice;
    BitsAccessed(p, Cleared(p));
    EvictDefined(Cleared(p), VictimIndex(p));
  }

  /** `evict`: clear bits, choose, put away. */
  ghost function EvictStep(p: Space): Space
    requires CanEvictNow(p)
  {
    ClearedReady(p);
    Evicted(Cleared(p), VictimIndex(p))
  }

  /** The mapped page that this eviction writes back, if it is one. */
  function VictimLost(p: Space): set<nat>
    requires p.table != []
  {
    var v := VictimOf(p);
    if v in p.frames && p.frames[v].kind == MMAP && v in p.dirty then {v} else {}
  }

  /**
   `q` holds what `p` holds, except that the pages in `lost` have zeros behind
   their file range. Mapped pages stay mapped and keep their range.
   */
  ghost predicate Carries(p: Space, q: Space, lost: set<nat>)
  {
    && q.frames.Keys == p.frames.Keys && SameKinds(p, q)
    && forall u :: u in p.frames ==> Logical(q, u) == if u in lost then Survives(p, u) else Logical(p, u)
  }

  ghost predicate SameKinds(p: Space, q: Space)
  {
    forall u :: u in p.frames && u in q.frames ==>
      (q.frames[u].kind == MMAP <==> p.frames[u].kind == MMAP) && q.frames[u].readBytes == p.frames[u].readBytes
  }

  lemma EvictStepKeeps(p: Space)
    requires CanEvictNow(p)
    ensures var q := EvictStep(p);
            && Valid(q) && q.free != [] && SameSizes(q.files, p.files) && Carries(p, q, VictimLost(p))
            && !q.frames[VictimOf(p)].load && forall u :: u in p.frames && u != VictimOf(p) ==> q.frames[u] == p.frames[u]
  {
    hide Valid, Logical, Survives, FirstIdle, LowestFree, Choice, Evicted, SameSizes;
    var c, k := Cleared(p), VictimIndex(p);
    ClearedReady(p);
    EvictKeeps(c, k);
    EvictFrames(c, k);
    EvictKinds(c, k);
    SurvivesUnlessLost(p);
  }

  lemma SurvivesUnlessLost(p: Space)
    requires p.table != []
    ensures VictimOf(p) in p.frames && VictimOf(p) !in VictimLost(p) ==> Survives(p, VictimOf(p)) == Logical(p, VictimOf(p))
  {
    hide Logical;
  }

  lemma EvictKinds(p: Space, k: nat)
    requires EvictReady(p, k)
    ensures SameKinds(p, Evicted(p, k)) && SameSizes(Evicted(p, k).files, p.files)
  {
    hide StorePage, LowestFree;
  }

  /** Accessed bits are only hints. */
  lemma BitsAccessed(p: Space, q: Space)
    requires Valid(p) && q == p.(accessed := q.accessed)
    ensures Valid(q) && forall u :: u in p.frames ==> Logical(q, u) == Logical(p, u) && Survives(q, u) == Survives(p, u)
  {
    hide Image, SlotPage, TableOk, MemoryOk, SwapOk, FilesOk, CleanOk;
    forall u ensures (Loaded(q, u) <==> Loaded(p, u)) && (SwappedOut(q, u) <==> SwappedOut(p, u)) { }
    forall u | u in p.frames ensures Logical(q, u) == Logical(p, u) { }
    SwapSame(p, q);
    TableSame(p, q);
    FewerFiles(p, q);
    FewerClean(p, q);
    MemorySame(p, q);
  }

  lemma MemorySame(p: Space, q: Space)
    requires MemoryOk(p) && q == p.(accessed := q.accessed)
    ensures MemoryOk(q)
  {
    assert forall u :: Loaded(q, u) <==> Loaded(p, u);
  }

  /** The loop around `palloc_get_page`: one eviction is enough. */
  ghost function Room(p: Space): Space
    requires Valid(p) && HasRoom(p)
  {
    if p.free != [] then p else EvictStep(p)
  }

  function RoomLost(p: Space): set<nat>
  {
    if p.free != [] || p.table == [] then {} else VictimLost(p)
  }

  lemma RoomKeeps(p: Space)
    requires Valid(p) && HasRoom(p)
    ensures var q := Room(p);
            && Valid(q) && q.free != [] && SameSizes(q.files, p.files) && Carries(p, q, RoomLost(p))
            && forall u :: u in p.frames && !p.frames[u].load ==> q.frames[u] == p.frames[u] && u !in RoomLost(p)
  {
    hide TableOk, MemoryOk, SwapOk, FilesOk, CleanOk, Logical, Survives, Choice, LowestFree, EvictStep, SameSizes;
    if p.free == [] {
      EvictStepKeeps(p);
      VictimLoaded(p);
    } else {
      SizesSame(p.files);
    }
  }

  lemma SizesSame(files: map<nat, seq<byte>>)
    ensures SameSizes(files, files)
  {
  }

  lemma VictimLoaded(p: Space)
    requires TableOk(p) && p.table != []
    ensures Loaded(p, VictimOf(p))
  {
    assert VictimOf(p) in p.table;
  }

  // ----- bringing a page back -----

  ghost predicate Absent(p: Space, u: nat)
  {
    Valid(p) && u in p.frames && !p.frames[u].load
  }

  lemma LoadReady(p: Space, u: nat)
    requires Absent(p, u) && CanLoad(p, u)
    ensures var r := Room(p);
            && Absent(r, u) && r.frames[u] == p.frames[u] && r.free != [] && Carries(p, r, RoomLost(p))
            && (r.frames[u].kind != SWAP ==> r.frames[u].readBytes <= PGSIZE && Readable(r.files, r.frames[u]))
            && (r.frames[u].kind == SWAP ==> 0 <= r.frames[u].index < |r.swapBits| && 8 * |r.swapBits| <= |r.swap|)
  {
    hide TableOk, MemoryOk, CleanOk, Logical, Survives, Choice, LowestFree, Room, HasRoom, RoomLost, Readable, InFile;
    RoomKeeps(p);
    SizesReadable(Room(p).files, p.files, p.frames[u]);
    if p.frames[u].kind == SWAP { SlotKnown(Room(p), u); }
  }

  /** `load_back`. */
  ghost function LoadStep(p: Space, u: nat): Space
    requires Absent(p, u) && CanLoad(p, u)
  {
    LoadReady(p, u);
    if p.frames[u].kind == SWAP then SwapLoaded(Room(p), u) else FileLoaded(Room(p), u)
  }

  lemma LoadStepKeeps(p: Space, u: nat)
    requires Absent(p, u) && CanLoad(p, u)
    ensures Valid(LoadStep(p, u)) && Loaded(LoadStep(p, u), u) && Carries(p, LoadStep(p, u), RoomLost(p))
  {
    hide TableOk, MemoryOk, SwapOk, FilesOk, CleanOk, Logical, Survives, Choice, LowestFree, Room, HasRoom, RoomLost, Readable, InFile, Image, SlotPage;
    LoadReady(p, u);
    if p.frames[u].kind == SWAP { SwapLoadedKeeps(Room(p), u); } else { FileLoadedKeeps(Room(p), u); }
  }

  // ----- operations -----

  datatype PageOp =
    | Write(page: nat, ofs: nat, data: seq<byte>)
    | Reclaim
    | Fault(page: nat)
    | Grow(page: nat)
    | Discard(page: nat)

  /** Exactly the operations that need a swap slot, a free page or file bytes that are not there. */
  predicate Blocked(p: Space, op: PageOp)
  {
    match op
    case Write(u, ofs, data) => u in p.frames && !p.frames[u].load && ofs + |data| <= PGSIZE && !CanLoad(p, u)
    case Reclaim => p.table != [] && !CanPutAway(p, VictimOf(p))
    case Fault(u) => u in p.frames && !p.frames[u].load && !CanLoad(p, u)
    case Grow(u) => u !in p.frames && !HasRoom(p)
    case Discard(_) => false
  }

  ghost function Resident(p: Space, u: nat): Space
    requires Valid(p) && u in p.frames && (!p.frames[u].load ==> CanLoad(p, u))
  {
    if p.frames[u].load then p else LoadStep(p, u)
  }

  lemma ResidentKeeps(p: Space, u: nat)
    requires Valid(p) && u in p.frames && (!p.frames[u].load ==> CanLoad(p, u))
    ensures var q := Resident(p, u);
            Valid(q) && Loaded(q, u) && q.frames[u].kpage in q.memory && Carries(p, q, if p.frames[u].load then {} else RoomLost(p))
  {
    hide TableOk, SwapOk, FilesOk, CleanOk, Logical, Survives, HasRoom, CanLoad, RoomLost, LoadStep;
    if !p.frames[u].load { LoadStepKeeps(p, u); }
  }

  /** One operation on the paged process; a blocked one does not happen. */
  ghost function Step(p: Space, op: PageOp): Space
    requires Valid(p)
  {
    if Blocked(p, op) then p else
    match op
    case Write(u, ofs, data) =>
      if u !in p.frames || ofs + |data| > PGSIZE then p else ResidentKeeps(p, u); Stored(Resident(p, u), u, ofs, data)
    case Reclaim => if p.table == [] then p else EvictStep(p)
    case Fault(u) => if u !in p.frames || p.frames[u].load then p else LoadStep(p, u)
    case Grow(u) => if u in p.frames then p else RoomKeeps(p); StackAdded(Room(p), u)
    case Discard(u) => if u in p.frames then Freed(p, u) else p
  }

  /** The mapped pages that the operation writes back and so cuts off behind their file range. */
  function LostBy(p: Space, op: PageOp): set<nat>
  {
    match op
    case Write(u, ofs, data) => if u in p.frames && !p.frames[u].load && ofs + |data| <= PGSIZE then RoomLost(p) else {}
    case Reclaim => if p.table == [] then {} else VictimLost(p)
    case Fault(u) => if u in p.frames && !p.frames[u].load then RoomLost(p) else {}
    case Grow(u) => if u in p.frames then {} else RoomLost(p)
    case Discard(_) => {}
  }

  type Pages = map<nat, Page>

  /** The same operation on pages that never leave memory. */
  function RefStep(ref: Pages, op: PageOp): Pages
  {
    match op
    case Write(u, ofs, data) => if u in ref && ofs + |data| <= PGSIZE then ref[u := Patch(ref[u], ofs, data)] else ref
    case Grow(u) => if u in ref then ref else ref[u := Zeros(PGSIZE)]
    case Discard(u) => ref - {u}
    case Reclaim => ref
    case Fault(_) => ref
  }

  ghost function Contents(p: Space): Pages { map u | u in p.frames :: Logical(p, u) }

  /** The contents of all pages, those in `lost` cut off behind their file range. */
  ghost function CutOff(p: Space, lost: set<nat>): Pages
  {
    map u | u in p.frames :: if u in lost then Survives(p, u) else Logical(p, u)
  }

  lemma CarriesContents(p: Space, q: Space, lost: set<nat>)
    requires Carries(p, q, lost)
    ensures Contents(q) == CutOff(p, lost)
  {
    hide Logical, Survives;
  }

  lemma CutOffNothing(p: Space)
    ensures CutOff(p, {}) == Contents(p) && Carries(p, p, {})
  {
    hide Logical, Survives;
  }

  /** One operation does to the contents exactly what it does to a process that was never paged, after the cut. */
  lemma StepExact(p: Space, op: PageOp)
    requires Valid(p) && !Blocked(p, op)
    ensures Valid(Step(p, op)) && Contents(Step(p, op)) == RefStep(CutOff(p, LostBy(p, op)), op)
  {
    hide Valid, Logical, Survives, HasRoom, CanLoad, RoomLost, VictimLost, LoadStep, EvictStep, Room, Stored, StackAdded, Freed, Resident, Carries, CanPutAway;
    CutOffNothing(p);
    match op
    case Write(u, ofs, data) => if u in p.frames && ofs + |data| <= PGSIZE { WriteExact(p, u, ofs, data); }
    case Reclaim => if p.table != [] { EvictStepKeeps(p); CarriesContents(p, EvictStep(p), VictimLost(p)); }
    case Fault(u) => if u in p.frames && !p.frames[u].load { LoadStepKeeps(p, u); CarriesContents(p, LoadStep(p, u), RoomLost(p)); }
    case Grow(u) => if u !in p.frames { GrowExact(p, u); }
    case Discard(u) => if u in p.frames { DiscardExact(p, u); } else { assert Contents(p) - {u} == Contents(p); }
  }

  lemma WriteExact(p: Space, u: nat, ofs: nat, data: seq<byte>)
    requires Valid(p) && u in p.frames && ofs + |data| <= PGSIZE && !Blocked(p, Write(u, ofs, data))
    ensures var op := Write(u, ofs, data);
            Valid(Step(p, op)) && Contents(Step(p, op)) == RefStep(CutOff(p, LostBy(p, op)), op)
  {
    hide Valid, Logical, Survives, HasRoom, CanLoad, RoomLost, Resident, Patch;
    ResidentKeeps(p, u);
    var r := Resident(p, u);
    var lost := if p.frames[u].load then {} else RoomLost(p);
    CarriesContents(p, r, lost);
    StoredKeeps(r, u, ofs, data);
    var q := Stored(r, u, ofs, data);
    assert Contents(q) == Contents(r)[u := Patch(Contents(r)[u], ofs, data)];
  }

  lemma GrowExact(p: Space, u: nat)
    requires Valid(p) && u !in p.frames && HasRoom(p)
    ensures Valid(Step(p, Grow(u))) && Contents(Step(p, Grow(u))) == RefStep(CutOff(p, LostBy(p, Grow(u))), Grow(u))
  {
    hide Valid, Logical, Survives, HasRoom, RoomLost, Room;
    RoomKeeps(p);
    CarriesContents(p, Room(p), RoomLost(p));
    StackAddedKeeps(Room(p), u);
    assert Contents(StackAdded(Room(p), u)) == Contents(Room(p))[u := Zeros(PGSIZE)];
  }

  lemma DiscardExact(p: Space, u: nat)
    requires Valid(p) && u in p.frames
    ensures Valid(Freed(p, u)) && Contents(Freed(p, u)) == Contents(p) - {u}
  {
    hide Valid, Logical, Freed;
    FreedKeeps(p, u);
  }

  // ----- runs -----

  ghost function After(p: Space, ops: seq<PageOp>, n: nat): Space
    requires Valid(p) && n <= |ops|
    ensures Valid(After(p, ops, n))
  {
    if n == 0 then p
    else
      var q := After(p, ops, n - 1);
      StepValid(q, ops[n - 1]);
      Step(q, ops[n - 1])
  }

  lemma StepValid(p: Space, op: PageOp)
    requires Valid(p)
    ensures Valid(Step(p, op))
  {
    hide Valid, Blocked;
    if Blocked(p, op) { assert Step(p, op) == p; } else { StepExact(p, op); }
  }

  function RefRun(ref: Pages, ops: seq<PageOp>, n: nat): Pages
    requires n <= |ops|
  {
    if n == 0 then ref else RefStep(RefRun(ref, ops, n - 1), ops[n - 1])
  }

  ghost predicate Runs(p: Space, ops: seq<PageOp>, n: nat)
    requires Valid(p) && n <= |ops|
  {
    forall m :: 0 <= m < n ==> !Blocked(After(p, ops, m), ops[m])
  }

  /** The pages that were written back while dirty and still exist. */
  ghost function LostIn(p: Space, ops: seq<PageOp>, n: nat): set<nat>
    requires Valid(p) && n <= |ops|
  {
    if n == 0 then {} else StillLost(LostIn(p, ops, n - 1), After(p, ops, n - 1), ops[n - 1])
  }

  function StillLost(lost: set<nat>, p: Space, op: PageOp): set<nat>
  {
    (if op.Discard? then lost - {op.page} else lost) + LostBy(p, op)
  }

  /** Equal, or zero at or behind byte `n`. */
  ghost predicate UpToTail(a: Page, b: Page, n: nat)
  {
    forall k :: 0 <= k < PGSIZE ==> a[k] == b[k] || (n <= k && a[k] == 0)
  }

  /** All of every page, except that bytes of a lost page behind its file range may have come back as zero. */
  ghost predicate Faithful(p: Space, ref: Pages, lost: set<nat>)
  {
    && ref.Keys == p.frames.Keys && lost <= p.frames.Keys
    && (forall u :: u in p.frames && u !in lost ==> Logical(p, u) == ref[u])
    && (forall u :: u in lost ==> p.frames[u].kind == MMAP && UpToTail(Logical(p, u), ref[u], p.frames[u].readBytes))
  }

  /**
   Paging is transparent: after any run of stores, evictions, page faults, stack
   growth and discards, every page equals the page of a process that was never
   paged. Only mapped pages that were written back while dirty may differ, and
   only by zeros behind their file range.
   */
  lemma {:induction false} Transparent(p: Space, ops: seq<PageOp>, n: nat)
    requires Valid(p) && n <= |ops| && Runs(p, ops, n)
    ensures Faithful(After(p, ops, n), RefRun(Contents(p), ops, n), LostIn(p, ops, n))
  {
    hide Valid, Logical, Faithful, Step, Blocked, RefStep, StillLost, LostBy;
    if n == 0 {
      StartFaithful(p);
    } else {
      Transparent(p, ops, n - 1);
      FaithfulStep(After(p, ops, n - 1), ops[n - 1], RefRun(Contents(p), ops, n - 1), LostIn(p, ops, n - 1));
    }
  }

  lemma StartFaithful(p: Space)
    ensures Faithful(p, Contents(p), {})
  {
    hide Logical;
  }

  /** A mapped page stays mapped, a new page is not mapped, and only mapped pages are lost. */
  lemma StepKinds(p: Space, op: PageOp)
    requires Valid(p) && !Blocked(p, op)
    ensures SameKinds(p, Step(p, op))
    ensures forall u :: u in LostBy(p, op) ==> u in p.frames && p.frames[u].kind == MMAP && u in p.table && u in p.dirty
    ensures op.Discard? ==> LostBy(p, op) == {}
  {
    hide Valid, Logical, Survives, HasRoom, CanLoad, LoadStep, EvictStep, Room, Resident, CanPutAway, Choice, StorePage;
    match op
    case Write(u, ofs, data) => if u in p.frames && ofs + |data| <= PGSIZE { ResidentKeeps(p, u); }
    case Reclaim => if p.table != [] { EvictStepKeeps(p); }
    case Fault(u) => if u in p.frames && !p.frames[u].load { LoadStepKeeps(p, u); }
    case Grow(u) => if u !in p.frames { RoomKeeps(p); }
    case Discard(u) =>
  }

  lemma SurvivesTail(p: Space, u: nat)
    requires u in p.frames && p.frames[u].kind == MMAP
    ensures UpToTail(Survives(p, u), Logical(p, u), p.frames[u].readBytes)
  {
    hide Logical;
  }

  /** Cutting a page off at its file range keeps agreement up to the tail. */
  lemma CutFaithful(p: Space, ref: Pages, lost: set<nat>, more: set<nat>)
    requires Faithful(p, ref, lost) && forall u :: u in more ==> u in p.frames && p.frames[u].kind == MMAP
    ensures var c := CutOff(p, more);
            && (forall u :: u in p.frames && u !in lost + more ==> c[u] == ref[u])
            && (forall u :: u in lost + more ==> p.frames[u].kind == MMAP && UpToTail(c[u], ref[u], p.frames[u].readBytes))
  {
    hide Logical, Survives;
    forall u | u in more ensures UpToTail(Survives(p, u), ref[u], p.frames[u].readBytes) { SurvivesTail(p, u); }
  }

  lemma FaithfulStep(p: Space, op: PageOp, ref: Pages, lost: set<nat>)
    requires Valid(p) && !Blocked(p, op) && Faithful(p, ref, lost)
    ensures Faithful(Step(p, op), RefStep(ref, op), StillLost(lost, p, op))
  {
    hide Valid, Logical, Survives, Step, Blocked, LostBy, UpToTail, CutOff, RefStep, SameKinds;
    var more := LostBy(p, op);
    StepExact(p, op);
    StepKinds(p, op);
    CutFaithful(p, ref, lost, more);
    CutKeys(p, more);
    var c, q := CutOff(p, more), Step(p, op);
    ContentsAre(q);
    RefFaithful(p, q, c, ref, op, lost, more);
  }

  /** The same operation on a page and on its reference keeps their agreement. */
  lemma RefFaithful(p: Space, q: Space, c: Pages, ref: Pages, op: PageOp, lost: set<nat>, more: set<nat>)
    requires c.Keys == ref.Keys == p.frames.Keys && lost + more <= p.frames.Keys && SameKinds(p, q)
    requires q.frames.Keys == RefStep(c, op).Keys && forall u :: u in q.frames ==> Logical(q, u) == RefStep(c, op)[u]
    requires forall u :: u in p.frames && u !in lost + more ==> c[u] == ref[u]
    requires forall u :: u in lost + more ==> p.frames[u].kind == MMAP && UpToTail(c[u], ref[u], p.frames[u].readBytes)
    requires op.Discard? ==> op.page !in more
    ensures Faithful(q, RefStep(ref, op), (if op.Discard? then lost - {op.page} else lost) + more)
  {
    hide Logical, UpToTail, Patch, RefStep;
    RefKeeps(c, ref, op);
    forall u | u in (if op.Discard? then lost - {op.page} else lost) + more
      ensures u in q.frames && q.frames[u].kind == MMAP && UpToTail(Logical(q, u), RefStep(ref, op)[u], q.frames[u].readBytes)
    {
      if op.Write? && op.page == u && op.ofs + |op.data| <= PGSIZE {
        PatchTail(c[u], ref[u], p.frames[u].readBytes, op.ofs, op.data);
      }
    }
  }

  lemma CutKeys(p: Space, lost: set<nat>)
    ensures CutOff(p, lost).Keys == p.frames.Keys
  {
  }

  lemma ContentsAre(p: Space)
    ensures Contents(p).Keys == p.frames.Keys && forall u :: u in p.frames ==> Contents(p)[u] == Logical(p, u)
  {
  }

  lemma RefKeeps(a: Pages, b: Pages, op: PageOp)
    requires a.Keys == b.Keys
    ensures RefStep(a, op).Keys == RefStep(b, op).Keys && RefStep(a, op).Keys >= a.Keys - (if op.Discard? then {op.page} else {})
    ensures op.Discard? ==> op.page !in RefStep(a, op)
    ensures forall u :: u in RefStep(a, op) ==>
              if u !in a then RefStep(a, op)[u] == RefStep(b, op)[u]
              else if op.Write? && op.page == u && op.ofs + |op.data| <= PGSIZE then
                RefStep(a, op)[u] == Patch(a[u], op.ofs, op.data) && RefStep(b, op)[u] == Patch(b[u], op.ofs, op.data)
              else RefStep(a, op)[u] == a[u] && RefStep(b, op)[u] == b[u]
  {
    hide Patch;
  }

  lemma PatchTail(a: Page, b: Page, n: nat, ofs: nat, data: seq<byte>)
    requires UpToTail(a, b, n) && ofs + |data| <= PGSIZE
    ensures UpToTail(Patch(a, ofs, data), Patch(b, ofs, data), n)
  {
  }

  /** A mapping of a one-byte file whose page the process has written at byte 1, behind the end of the file. */
  function OneByteMapping(): Space
  {
    Space(map[0 := Frame(MMAP, true, 0, -1, 0, 0, 1)], [0], {}, {0}, map[0 := Zeros(4096)[1 := 5]], [], [], [], map[0 := [7]])
  }

  lemma OneByteValid()
    ensures Valid(OneByteMapping()) && !Blocked(OneByteMapping(), Reclaim) && LostBy(OneByteMapping(), Reclaim) == {0}
  {
    var p := OneByteMapping();
    assert p.table[0] == 0;
    assert forall u :: u in p.frames <==> u == 0;
  }

  /** Evicting that page loses the byte: it comes back as zero. */
  lemma TailIsLost()
    ensures var p := OneByteMapping();
            && Valid(p) && !Blocked(p, Reclaim) && 0 in Step(p, Reclaim).frames
            && Logical(p, 0)[1] == 5 && Logical(Step(p, Reclaim), 0)[1] == 0
  {
    hide Step, Valid, Blocked, LostBy;
    var p := OneByteMapping();
    OneByteValid();
    StepExact(p, Reclaim);
    ContentsAre(Step(p, Reclaim));
    CutKeys(p, {0});
    assert Contents(Step(p, Reclaim))[0] == Survives(p, 0);
  }
}
