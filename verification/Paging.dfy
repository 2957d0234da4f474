/**
 Demand paging for one address space without shared frames. `Logical` is what
 the process is entitled to find in a page, wherever the page currently is:
 in memory, in its file, or in a swap slot.
 */
module Paging {
  import opened Bytes

  const PGSIZE: nat := 4096

  type Page = p: seq<byte> | |p| == 4096 witness Zeros(4096)

  datatype PageType = FILE | MMAP | SWAP

  /** `struct frame_elem`; a frame belongs to exactly one user page. */
  datatype Frame = Frame(kind: PageType, load: bool, kpage: nat, index: int, file: nat, ofs: nat, readBytes: nat)

  /**
   Frames by user page, the frame table, the page-directory bits, the user pool
   with its free pages, the swap device with its bitmap, and the backing files.
   */
  datatype Space = Space(
    frames: map<nat, Frame>, table: seq<nat>, accessed: set<nat>, dirty: set<nat>,
    memory: map<nat, Page>, free: seq<nat>, swapBits: seq<bool>, swap: seq<Block>, files: map<nat, seq<byte>>)

  // ----- swap slots -----

  /** The page stored in slot `i`: eight consecutive sectors. */
  function SlotPage(swap: seq<Block>, i: nat): (p: Page)
    requires 8 * i + 8 <= |swap|
    ensures forall k :: 0 <= k < 4096 ==> p[k] == swap[8 * i + k / 512][k % 512]
  {
    seq(4096, k requires 0 <= k < 4096 => swap[8 * i + k / 512][k % 512])
  }

  /** Sector `j` of a page. */
  function Sector(p: Page, j: nat): (b: Block)
    requires j < 8
  {
    p[512 * j..512 * j + 512]
  }

  /** The first `n` sectors of a page written to slot `i`. */
  function StoreSectors(swap: seq<Block>, i: nat, p: Page, n: nat): (r: seq<Block>)
    requires 8 * i + 8 <= |swap| && n <= 8
    ensures |r| == |swap|
    ensures forall s :: 0 <= s < |swap| ==> r[s] == if 8 * i <= s < 8 * i + n then Sector(p, s - 8 * i) else swap[s]
  {
    if n == 0 then swap else StoreSectors(swap, i, p, n - 1)[8 * i + n - 1 := Sector(p, n - 1)]
  }

  function StorePage(swap: seq<Block>, i: nat, p: Page): (r: seq<Block>)
    requires 8 * i + 8 <= |swap|
    ensures |r| == |swap|
    ensures forall s :: 0 <= s < |swap| ==> r[s] == if 8 * i <= s < 8 * i + 8 then Sector(p, s - 8 * i) else swap[s]
  {
    StoreSectors(swap, i, p, 8)
  }

  /** What is swapped out comes back, and no other slot is touched. */
  lemma StoreRoundTrip(swap: seq<Block>, i: nat, p: Page)
    requires 8 * i + 8 <= |swap|
    ensures SlotPage(StorePage(swap, i, p), i) == p
    ensures forall j: nat :: j != i && 8 * j + 8 <= |swap| ==> SlotPage(StorePage(swap, i, p), j) == SlotPage(swap, j)
  {
    var t := StorePage(swap, i, p);
    var q := SlotPage(t, i);
    forall k | 0 <= k < 4096 ensures q[k] == p[k] {
      assert t[8 * i + k / 512] == Sector(p, k / 512);
    }
    forall j: nat | j != i && 8 * j + 8 <= |swap| ensures SlotPage(t, j) == SlotPage(swap, j) {
      var x, y := SlotPage(t, j), SlotPage(swap, j);
      forall k | 0 <= k < 4096 ensures x[k] == y[k] {
        assert t[8 * j + k / 512] == swap[8 * j + k / 512];
      }
    }
  }

  // ----- contents -----

  predicate InFile(files: map<nat, seq<byte>>, f: Frame)
  {
    f.file in files && f.ofs + f.readBytes <= |files[f.file]|
  }

  /** `file_read_at` will not come up short. */
  predicate Readable(files: map<nat, seq<byte>>, f: Frame)
  {
    f.readBytes == 0 || InFile(files, f)
  }

  /** What `file_back` puts into a page: the file's bytes, then zeros. */
  function Image(files: map<nat, seq<byte>>, f: Frame): (p: seq<byte>)
    requires f.readBytes <= PGSIZE
    ensures |p| == PGSIZE
  {
    (if InFile(files, f) then files[f.file][f.ofs..f.ofs + f.readBytes] else Zeros(f.readBytes)) + Zeros(PGSIZE - f.readBytes)
  }

  predicate SwappedOut(p: Space, u: nat)
  {
    u in p.frames && p.frames[u].kind == SWAP && !p.frames[u].load
  }

  predicate Loaded(p: Space, u: nat)
  {
    u in p.frames && p.frames[u].load
  }

  function Logical(p: Space, u: nat): Page
    requires u in p.frames
  {
    var f := p.frames[u];
    if f.load then (if f.kpage in p.memory then p.memory[f.kpage] else Zeros(PGSIZE))
    else if f.kind == SWAP then
      (if 0 <= f.index && 8 * f.index + 8 <= |p.swap| then SlotPage(p.swap, f.index) else Zeros(PGSIZE))
    else (if f.readBytes <= PGSIZE then Image(p.files, f) else Zeros(PGSIZE))
  }

  // ----- invariants -----

  ghost predicate Distinct(s: seq<nat>)
  {
    forall j, k :: 0 <= j < k < |s| ==> s[j] != s[k]
  }

  ghost predicate TableOk(p: Space)
  {
    Distinct(p.table) && forall u :: u in p.table <==> Loaded(p, u)
  }

  /** Loaded frames own different pages of the pool, none of them free. */
  ghost predicate MemoryOk(p: Space)
  {
    && (forall u :: Loaded(p, u) ==> p.frames[u].kpage in p.memory && p.frames[u].kpage !in p.free)
    && (forall u, v :: Loaded(p, u) && Loaded(p, v) && p.frames[u].kpage == p.frames[v].kpage ==> u == v)
    && Distinct(p.free) && (forall k :: k in p.free ==> k in p.memory)
    && |p.memory.Keys| == |p.free| + |p.table|
  }

  /** The set bits are exactly the slots of the pages that are swapped out, one slot each. */
  ghost predicate SwapOk(p: Space)
  {
    && 8 * |p.swapBits| <= |p.swap|
    && (forall u :: SwappedOut(p, u) ==> 0 <= p.frames[u].index < |p.swapBits| && p.swapBits[p.frames[u].index])
    && (forall u, v :: SwappedOut(p, u) && SwappedOut(p, v) && p.frames[u].index == p.frames[v].index ==> u == v)
    && (forall i :: 0 <= i < |p.swapBits| && p.swapBits[i] ==> exists u :: SwappedOut(p, u) && p.frames[u].index == i)
  }

  /** Nobody else's backing range is written when a mapped page is written back. */
  ghost predicate FilesOk(p: Space)
  {
    && (forall u :: u in p.frames && p.frames[u].kind != SWAP ==> p.frames[u].readBytes <= PGSIZE && p.frames[u].index == -1)
    && (forall u :: u in p.frames && p.frames[u].kind == MMAP ==> InFile(p.files, p.frames[u]))
    && (forall u, v :: u in p.frames && v in p.frames && u != v && p.frames[u].kind == MMAP && p.frames[v].kind != SWAP
          ==> Apart(p.frames[u], p.frames[v]))
  }

  predicate Apart(f: Frame, g: Frame)
  {
    f.file != g.file || f.ofs + f.readBytes <= g.ofs || g.ofs + g.readBytes <= f.ofs
  }

  /** A page whose dirty bit is off still holds what the file holds. */
  ghost predicate CleanOk(p: Space)
  {
    forall u :: Loaded(p, u) && p.frames[u].kind != SWAP && u !in p.dirty ==>
      p.frames[u].readBytes <= PGSIZE && Readable(p.files, p.frames[u]) && Logical(p, u) == Image(p.files, p.frames[u])
  }

  // ----- the pool -----

  ghost function ElementsOf(s: seq<nat>): (r: set<nat>)
    ensures forall x :: x in r <==> x in s
  {
    set x | x in s
  }

  lemma {:induction false} DistinctSize(s: seq<nat>)
    requires Distinct(s)
    ensures |ElementsOf(s)| == |s|
  {
    if s != [] {
      var init, last := s[..|s| - 1], s[|s| - 1];
      DistinctSize(init);
      assert s == init + [last];
      assert last !in init;
      assert ElementsOf(s) == ElementsOf(init) + {last};
    }
  }

  /** The pages of the pool that the frames of `us` own. */
  ghost function Owned(p: Space, us: seq<nat>): (r: seq<nat>)
    requires forall u :: u in us ==> u in p.frames
    ensures |r| == |us| && forall j :: 0 <= j < |us| ==> r[j] == p.frames[us[j]].kpage
  {
    seq(|us|, j requires 0 <= j < |us| => assert us[j] in us; p.frames[us[j]].kpage)
  }

  /** No page of the pool is ever lost: each is free or belongs to exactly one resident page. */
  lemma PoolPartition(p: Space, k: nat)
    requires TableOk(p) && MemoryOk(p) && k in p.memory
    ensures k in p.free <==> !exists u :: Loaded(p, u) && p.frames[u].kpage == k
  {
    var owned := Owned(p, p.table);
    assert Distinct(owned) by {
      forall i, j | 0 <= i < j < |owned| ensures owned[i] != owned[j] { assert p.table[i] in p.table && p.table[j] in p.table; }
    }
    DistinctSize(p.free);
    DistinctSize(owned);
    var a, b := ElementsOf(p.free), ElementsOf(owned);
    assert a !! b && a + b <= p.memory.Keys by {
      forall x | x in owned ensures x in p.memory && x !in p.free {
        var j :| 0 <= j < |owned| && owned[j] == x;
        assert p.table[j] in p.table;
      }
    }
    SubsetFull(a + b, p.memory.Keys);
    if k in owned {
      var j :| 0 <= j < |owned| && owned[j] == k;
      assert p.table[j] in p.table;
      assert Loaded(p, p.table[j]) && p.frames[p.table[j]].kpage == k;
    }
  }

  lemma SubsetFull(a: set<nat>, b: set<nat>)
    requires a <= b && |a| == |b|
    ensures a == b
  {
    if x :| x in b && x !in a {
      assert a <= b - {x};
      SubsetSize(a, b - {x});
    }
  }

  lemma {:induction false} SubsetSize(a: set<nat>, b: set<nat>)
    requires a <= b
    ensures |a| <= |b|
    decreases a
  {
    if a != {} {
      var x :| x in a;
      SubsetSize(a - {x}, b - {x});
    }
  }

  ghost predicate Valid(p: Space)
  {
    TableOk(p) && MemoryOk(p) && SwapOk(p) && FilesOk(p) && CleanOk(p)
  }

  // ----- eviction as a function -----

  /** First page of the table that is neither accessed nor dirty; the head if there is none. */
  function Choice(table: seq<nat>, accessed: set<nat>, dirty: set<nat>): (k: nat)
    requires table != []
    ensures k < |table|
    ensures forall j :: 0 <= j < k ==> table[j] in accessed || table[j] in dirty
    ensures table[k] in accessed || table[k] in dirty ==>
              k == 0 && forall j :: 0 <= j < |table| ==> table[j] in accessed || table[j] in dirty
  {
    var k := FirstIdle(table, accessed, dirty);
    if k < |table| then k else 0
  }

  function FirstIdle(table: seq<nat>, accessed: set<nat>, dirty: set<nat>): (k: nat)
    ensures k <= |table|
    ensures forall j :: 0 <= j < k ==> table[j] in accessed || table[j] in dirty
    ensures k < |table| ==> table[k] !in accessed && table[k] !in dirty
  {
    if table == [] || (table[0] !in accessed && table[0] !in dirty) then 0
    else 1 + FirstIdle(table[1..], accessed, dirty)
  }

  /** Where the contents of the victim go. */
  predicate NeedsSlot(p: Space, v: nat)
    requires v in p.frames
  {
    p.frames[v].kind == SWAP || (p.frames[v].kind == FILE && v in p.dirty)
  }

  /** A page of the pool is free, or one can be freed. */
  predicate HasRoom(p: Space)
  {
    p.free != [] || (p.table != [] && CanPutAway(p, VictimOf(p)))
  }

  function VictimIndex(p: Space): (k: nat)
    requires p.table != []
    ensures k < |p.table|
  {
    Choice(p.table, p.accessed, p.dirty)
  }

  function VictimOf(p: Space): nat
    requires p.table != []
  {
    p.table[VictimIndex(p)]
  }

  predicate CanPutAway(p: Space, v: nat)
  {
    v in p.frames && (NeedsSlot(p, v) ==> LowestFree(p.swapBits) < |p.swapBits|)
  }

  /** `load_back` will bring the page back. */
  predicate CanLoad(p: Space, u: nat)
    requires u in p.frames
  {
    HasRoom(p) && (p.frames[u].kind != SWAP ==> Readable(p.files, p.frames[u]))
  }

  /** Writing back never changes the length of a file. */
  ghost predicate SameSizes(a: map<nat, seq<byte>>, b: map<nat, seq<byte>>)
  {
    a.Keys == b.Keys && forall k :: k in a ==> |a[k]| == |b[k]|
  }

  lemma SizesReadable(a: map<nat, seq<byte>>, b: map<nat, seq<byte>>, f: Frame)
    requires SameSizes(a, b)
    ensures Readable(a, f) <==> Readable(b, f)
  {
  }

  function LowestFree(bits: seq<bool>): (i: nat)
    ensures i <= |bits| && (i < |bits| ==> !bits[i]) && forall j :: 0 <= j < i ==> bits[j]
  {
    if bits == [] || !bits[0] then 0 else 1 + LowestFree(bits[1..])
  }

  function Drop(s: seq<nat>, k: nat): seq<nat>
    requires k < |s|
  {
    s[..k] + s[k + 1..]
  }

  /** The victim leaves memory: to swap, to its file, or nowhere if it is clean. */
  function Evicted(p: Space, k: nat): Space
    requires k < |p.table| && p.table[k] in p.frames && p.frames[p.table[k]].kpage in p.memory
    requires NeedsSlot(p, p.table[k]) ==> LowestFree(p.swapBits) < |p.swapBits| && 8 * |p.swapBits| <= |p.swap|
    requires p.frames[p.table[k]].kind == MMAP ==> InFile(p.files, p.frames[p.table[k]]) && p.frames[p.table[k]].readBytes <= PGSIZE
  {
    var v := p.table[k];
    var f := p.frames[v];
    var page := p.memory[f.kpage];
    var q := p.(table := Drop(p.table, k), free := p.free + [f.kpage]);
    if NeedsSlot(p, v) then
      var i := LowestFree(p.swapBits);
      q.(frames := p.frames[v := f.(load := false, kind := SWAP, index := i)],
         swapBits := p.swapBits[i := true], swap := StorePage(p.swap, i, page))
    else if f.kind == MMAP && v in p.dirty then
      q.(frames := p.frames[v := f.(load := false)],
         files := p.files[f.file := Patch(p.files[f.file], f.ofs, page[..f.readBytes])])
    else q.(frames := p.frames[v := f.(load := false)])
  }

  /** The page as it will be found again: a mapped page that is written back loses what lies past its file bytes. */
  function Survives(p: Space, v: nat): Page
    requires v in p.frames
  {
    var f := p.frames[v];
    if f.kind == MMAP && v in p.dirty && f.readBytes <= PGSIZE
    then Logical(p, v)[..f.readBytes] + Zeros(PGSIZE - f.readBytes)
    else Logical(p, v)
  }

  /**
   Eviction loses nothing, exactly unless the victim is a modified mapped page
   with a non-zero byte past the end of its file bytes.
   */
  lemma SurvivesIff(p: Space, v: nat)
    requires v in p.frames && p.frames[v].readBytes <= PGSIZE
    ensures Survives(p, v) == Logical(p, v) <==>
            !(p.frames[v].kind == MMAP && v in p.dirty &&
              exists k :: p.frames[v].readBytes <= k < PGSIZE && Logical(p, v)[k] != 0)
  {
    hide Logical;
    var n, page := p.frames[v].readBytes, Logical(p, v);
    var kept := page[..n] + Zeros(PGSIZE - n);
    if forall k :: n <= k < PGSIZE ==> page[k] == 0 {
      assert forall k :: 0 <= k < PGSIZE ==> kept[k] == page[k];
      assert kept == page;
    } else {
      var k :| n <= k < PGSIZE && page[k] != 0;
      assert kept[k] == 0;
    }
  }

  ghost predicate CanEvict(p: Space, k: nat)
  {
    Valid(p) && k < |p.table| && p.table[k] in p.frames && (NeedsSlot(p, p.table[k]) ==> LowestFree(p.swapBits) < |p.swapBits|)
  }

  lemma EvictDefined(p: Space, k: nat)
    requires Valid(p) && k < |p.table|
    ensures Loaded(p, p.table[k]) && p.frames[p.table[k]].kpage in p.memory
    ensures p.frames[p.table[k]].kind == MMAP ==> InFile(p.files, p.frames[p.table[k]]) && p.frames[p.table[k]].readBytes <= PGSIZE
    ensures 8 * |p.swapBits| <= |p.swap|
  {
    assert p.table[k] in p.table;
  }

  /** Writing a mapped range back changes no other page's image. */
  lemma ImageApart(files: map<nat, seq<byte>>, f: Frame, g: Frame, data: seq<byte>)
    requires InFile(files, f) && |data| == f.readBytes && g.readBytes <= PGSIZE && Apart(f, g)
    ensures var files' := files[f.file := Patch(files[f.file], f.ofs, data)];
            (InFile(files', g) <==> InFile(files, g)) && Image(files', g) == Image(files, g)
  {
    var files' := files[f.file := Patch(files[f.file], f.ofs, data)];
    if InFile(files, g) && f.file == g.file {
      var x, y := files'[g.file][g.ofs..g.ofs + g.readBytes], files[g.file][g.ofs..g.ofs + g.readBytes];
      assert forall k :: 0 <= k < g.readBytes ==> x[k] == y[k];
      assert x == y;
    }
  }

  /**
   Without that separation, writing range `f` back shows through in another page
   of the same file exactly if it changes a byte that the two ranges share.
   */
  lemma WriteBackShowsIff(files: map<nat, seq<byte>>, f: Frame, g: Frame, data: seq<byte>)
    requires InFile(files, f) && InFile(files, g) && |data| == f.readBytes && g.readBytes <= PGSIZE
    ensures var files' := files[f.file := Patch(files[f.file], f.ofs, data)];
            Image(files', g) != Image(files, g) <==>
            g.file == f.file && exists a :: g.ofs <= a < g.ofs + g.readBytes && SharedByteDiffers(files, f, a, data)
  {
    var files' := files[f.file := Patch(files[f.file], f.ofs, data)];
    var x, y := Image(files', g), Image(files, g);
    ImageBytes(files', g);
    ImageBytes(files, g);
    hide Image, SharedByteDiffers;
    if f.file == g.file {
      forall a | g.ofs <= a < g.ofs + g.readBytes
        ensures x[a - g.ofs] != y[a - g.ofs] <==> SharedByteDiffers(files, f, a, data)
      {
        PatchDiffers(files, f, a, data);
      }
      if !exists a :: g.ofs <= a < g.ofs + g.readBytes && SharedByteDiffers(files, f, a, data) {
        forall k | 0 <= k < PGSIZE ensures x[k] == y[k] {
          if k < g.readBytes { assert !SharedByteDiffers(files, f, g.ofs + k, data); }
        }
        assert x == y;
      }
    }
  }

  lemma ImageBytes(files: map<nat, seq<byte>>, g: Frame)
    requires InFile(files, g) && g.readBytes <= PGSIZE
    ensures forall a :: g.ofs <= a < g.ofs + g.readBytes ==> Image(files, g)[a - g.ofs] == files[g.file][a]
    ensures forall k :: g.readBytes <= k < PGSIZE ==> Image(files, g)[k] == 0
  {
  }

  lemma PatchDiffers(files: map<nat, seq<byte>>, f: Frame, a: nat, data: seq<byte>)
    requires InFile(files, f) && |data| == f.readBytes && a < |files[f.file]|
    ensures Patch(files[f.file], f.ofs, data)[a] != files[f.file][a] <==> SharedByteDiffers(files, f, a, data)
  {
  }

  /** Byte `a` of the file lies in range `f`, and `data` has another value there. */
  predicate SharedByteDiffers(files: map<nat, seq<byte>>, f: Frame, a: nat, data: seq<byte>)
    requires InFile(files, f) && |data| == f.readBytes
  {
    f.ofs <= a < f.ofs + f.readBytes && data[a - f.ofs] != files[f.file][a]
  }

  lemma ImageOwn(files: map<nat, seq<byte>>, f: Frame, page: Page)
    requires InFile(files, f) && f.readBytes <= PGSIZE
    ensures var files' := files[f.file := Patch(files[f.file], f.ofs, page[..f.readBytes])];
            InFile(files', f) && Image(files', f) == page[..f.readBytes] + Zeros(PGSIZE - f.readBytes)
  {
    var files' := files[f.file := Patch(files[f.file], f.ofs, page[..f.readBytes])];
    assert files'[f.file][f.ofs..f.ofs + f.readBytes] == page[..f.readBytes];
  }

  // ----- eviction keeps the invariants and the contents -----

  /** Dropping entry `k` from a list without repetitions. */
  lemma Dropped(s: seq<nat>, k: nat)
    requires k < |s| && Distinct(s)
    ensures Distinct(Drop(s, k)) && |Drop(s, k)| == |s| - 1 && forall x :: x in Drop(s, k) <==> x in s && x != s[k]
  {
    forall x | x in s && x != s[k] ensures x in Drop(s, k) {
      var j :| 0 <= j < |s| && s[j] == x;
      assert Drop(s, k)[if j < k then j else j - 1] == x;
    }
  }

  lemma EvictTable(p: Space, k: nat)
    requires CanEvict(p, k)
    ensures EvictReady(p, k) && TableOk(Evicted(p, k)) && MemoryOk(Evicted(p, k))
  {
    hide SwapOk, FilesOk, CleanOk, StorePage, Patch, LowestFree, InFile;
    EvictDefined(p, k);
    Dropped(p.table, k);
    EvictFrames(p, k);
    var q := Evicted(p, k);
    var v := p.table[k];
    forall u ensures Loaded(q, u) <==> Loaded(p, u) && u != v { }
    EvictMemory(p, q, v);
  }

  lemma EvictMemory(p: Space, q: Space, v: nat)
    requires MemoryOk(p) && Loaded(p, v) && q.memory == p.memory && q.free == p.free + [p.frames[v].kpage]
    requires |q.table| + 1 == |p.table|
    requires forall u :: Loaded(q, u) ==> Loaded(p, u) && u != v && q.frames[u] == p.frames[u]
    ensures MemoryOk(q)
  {
  }

  ghost predicate EvictReady(p: Space, k: nat)
  {
    && k < |p.table| && p.table[k] in p.frames && p.frames[p.table[k]].kpage in p.memory
    && (NeedsSlot(p, p.table[k]) ==> LowestFree(p.swapBits) < |p.swapBits| && 8 * |p.swapBits| <= |p.swap|)
    && (p.frames[p.table[k]].kind == MMAP ==> InFile(p.files, p.frames[p.table[k]]) && p.frames[p.table[k]].readBytes <= PGSIZE)
  }

  /** Accounting is about who is swapped out where, and nothing else. */
  lemma SwapSame(p: Space, q: Space)
    requires SwapOk(p) && q.swapBits == p.swapBits && |q.swap| == |p.swap|
    requires forall u :: SwappedOut(q, u) <==> SwappedOut(p, u)
    requires forall u :: SwappedOut(p, u) && SwappedOut(q, u) ==> q.frames[u].index == p.frames[u].index
    ensures SwapOk(q)
  {
    forall j | 0 <= j < |q.swapBits| && q.swapBits[j] ensures exists u :: SwappedOut(q, u) && q.frames[u].index == j {
      var u :| SwappedOut(p, u) && p.frames[u].index == j;
      assert SwappedOut(q, u);
    }
  }

  /** One more page in a slot that was free. */
  lemma SwapMore(p: Space, q: Space, v: nat, i: nat)
    requires SwapOk(p) && !SwappedOut(p, v) && SwappedOut(q, v) && q.frames[v].index == i
    requires i < |p.swapBits| && !p.swapBits[i] && q.swapBits == p.swapBits[i := true] && |q.swap| == |p.swap|
    requires forall u :: u != v ==> (SwappedOut(q, u) <==> SwappedOut(p, u))
    requires forall u :: u != v && SwappedOut(p, u) && SwappedOut(q, u) ==> q.frames[u].index == p.frames[u].index
    ensures SwapOk(q)
  {
    forall j | 0 <= j < |q.swapBits| && q.swapBits[j] ensures exists u :: SwappedOut(q, u) && q.frames[u].index == j {
      if j != i {
        var u :| SwappedOut(p, u) && p.frames[u].index == j;
        assert SwappedOut(q, u) && q.frames[u].index == j;
      }
    }
  }

  /** One page fewer: its slot is free again. */
  lemma SwapLess(p: Space, q: Space, v: nat)
    requires SwapOk(p) && SwappedOut(p, v) && !SwappedOut(q, v)
    requires q.swapBits == p.swapBits[p.frames[v].index := false] && |q.swap| == |p.swap|
    requires forall u :: u != v ==> (SwappedOut(q, u) <==> SwappedOut(p, u))
    requires forall u :: u != v && SwappedOut(p, u) && SwappedOut(q, u) ==> q.frames[u].index == p.frames[u].index
    ensures SwapOk(q)
  {
    forall j | 0 <= j < |q.swapBits| && q.swapBits[j] ensures exists u :: SwappedOut(q, u) && q.frames[u].index == j {
      var u :| SwappedOut(p, u) && p.frames[u].index == j;
      assert SwappedOut(q, u) && q.frames[u].index == j;
    }
  }

  lemma EvictSwap(p: Space, k: nat)
    requires CanEvict(p, k) && EvictReady(p, k)
    ensures SwapOk(Evicted(p, k))
  {
    hide MemoryOk, FilesOk, CleanOk, StorePage, Patch, TableOk, SwapOk, LowestFree;
    var q := Evicted(p, k);
    var v := p.table[k];
    EvictDefined(p, k);
    if NeedsSlot(p, v) {
      SwapMore(p, q, v, LowestFree(p.swapBits));
    } else {
      SwapSame(p, q);
    }
  }

  lemma EvictFiles(p: Space, k: nat)
    requires CanEvict(p, k) && EvictReady(p, k)
    ensures FilesOk(Evicted(p, k))
  {
    hide MemoryOk, CleanOk, StorePage, TableOk, SwapOk, Image;
    var q := Evicted(p, k);
    var v := p.table[k];
    var f := p.frames[v];
    if !NeedsSlot(p, v) && f.kind == MMAP && v in p.dirty {
      assert |q.files[f.file]| == |p.files[f.file]|;
    }
  }

  /** A page other than the victim looks the same afterwards. */
  lemma EvictOther(p: Space, k: nat, u: nat)
    requires CanEvict(p, k) && EvictReady(p, k) && u in p.frames && u != p.table[k]
    ensures Logical(Evicted(p, k), u) == Logical(p, u)
    ensures p.frames[u].kind != SWAP ==>
              && (InFile(Evicted(p, k).files, p.frames[u]) <==> InFile(p.files, p.frames[u]))
              && p.frames[u].readBytes <= PGSIZE && Image(Evicted(p, k).files, p.frames[u]) == Image(p.files, p.frames[u])
  {
    hide MemoryOk, CleanOk, StorePage, TableOk, Image, SlotPage;
    var q := Evicted(p, k);
    var v := p.table[k];
    var f := p.frames[v];
    if NeedsSlot(p, v) {
      var i := LowestFree(p.swapBits);
      StoreRoundTrip(p.swap, i, p.memory[f.kpage]);
      if SwappedOut(p, u) { assert p.frames[u].index != i; }
    } else if f.kind == MMAP && v in p.dirty && p.frames[u].kind != SWAP {
      ImageApart(p.files, f, p.frames[u], p.memory[f.kpage][..f.readBytes]);
    }
  }

  /** The victim can be found again. */
  lemma EvictVictim(p: Space, k: nat)
    requires CanEvict(p, k) && EvictReady(p, k)
    ensures Logical(Evicted(p, k), p.table[k]) == Survives(p, p.table[k])
  {
    hide MemoryOk, StorePage, SwapOk, Image, SlotPage;
    EvictDefined(p, k);
    var v := p.table[k];
    var f := p.frames[v];
    if NeedsSlot(p, v) {
      StoreRoundTrip(p.swap, LowestFree(p.swapBits), p.memory[f.kpage]);
    } else {
      if v in p.dirty { ImageOwn(p.files, f, p.memory[f.kpage]); }
      ImageIgnoresLoad(Evicted(p, k).files, f);
    }
  }

  lemma ImageIgnoresLoad(files: map<nat, seq<byte>>, f: Frame)
    requires f.readBytes <= PGSIZE
    ensures Image(files, f.(load := false)) == Image(files, f) && Image(files, f.(load := true)) == Image(files, f)
  {
  }

  /**
   `evict` never changes what a process finds in a page, except that a mapped
   page that had to be written back keeps only the bytes that belong to its file.
   */
  lemma EvictKeeps(p: Space, k: nat)
    requires CanEvict(p, k)
    ensures EvictReady(p, k) && Valid(Evicted(p, k)) && Evicted(p, k).frames.Keys == p.frames.Keys
    ensures forall u :: u in p.frames ==>
              Logical(Evicted(p, k), u) == if u == p.table[k] then Survives(p, u) else Logical(p, u)
  {
    hide SwapOk, FilesOk, MemoryOk, TableOk, CleanOk, Logical, Survives, Evicted;
    EvictTable(p, k);
    EvictSwap(p, k);
    EvictFiles(p, k);
    EvictVictim(p, k);
    EvictClean(p, k);
    EvictFrames(p, k);
    forall u | u in p.frames && u != p.table[k] ensures Logical(Evicted(p, k), u) == Logical(p, u) {
      EvictOther(p, k, u);
    }
  }

  lemma EvictFrames(p: Space, k: nat)
    requires EvictReady(p, k)
    ensures Evicted(p, k).frames.Keys == p.frames.Keys && !Evicted(p, k).frames[p.table[k]].load
    ensures forall u :: u in p.frames && u != p.table[k] ==> Evicted(p, k).frames[u] == p.frames[u]
    ensures Evicted(p, k).table == Drop(p.table, k) && Evicted(p, k).dirty == p.dirty && Evicted(p, k).free == p.free + [p.frames[p.table[k]].kpage]
  {
  }

  lemma EvictClean(p: Space, k: nat)
    requires CanEvict(p, k) && EvictReady(p, k)
    ensures CleanOk(Evicted(p, k))
  {
    hide SwapOk, FilesOk, MemoryOk, TableOk, Logical, Evicted, Image, InFile;
    var q := Evicted(p, k);
    EvictFrames(p, k);
    forall u | Loaded(q, u) && q.frames[u].kind != SWAP && u !in q.dirty
      ensures q.frames[u].readBytes <= PGSIZE && Readable(q.files, q.frames[u]) && Logical(q, u) == Image(q.files, q.frames[u])
    {
      EvictOther(p, k, u);
    }
  }

  // ----- bringing a page back -----

  /** Page `u` installed in the first free page of the pool, with a fresh page-directory entry. */
  function Installed(p: Space, u: nat, page: Page): Space
    requires u in p.frames && p.free != []
  {
    var kp := p.free[0];
    p.(frames := p.frames[u := p.frames[u].(load := true, kpage := kp)], memory := p.memory[kp := page],
       free := p.free[1..], table := p.table + [u], accessed := p.accessed - {u}, dirty := p.dirty - {u})
  }

  function FileLoaded(p: Space, u: nat): Space
    requires u in p.frames && p.free != [] && p.frames[u].readBytes <= PGSIZE
  {
    Installed(p, u, Image(p.files, p.frames[u]))
  }

  function SwapLoaded(p: Space, u: nat): Space
    requires u in p.frames && p.free != [] && 0 <= p.frames[u].index < |p.swapBits| && 8 * |p.swapBits| <= |p.swap|
  {
    var i := p.frames[u].index;
    Installed(p.(swapBits := p.swapBits[i := false]), u, SlotPage(p.swap, i))
  }

  /** A freshly installed page disturbs no other page. */
  lemma InstalledMemory(p: Space, u: nat, page: Page)
    requires TableOk(p) && MemoryOk(p) && u in p.frames && !p.frames[u].load && p.free != []
    ensures TableOk(Installed(p, u, page)) && MemoryOk(Installed(p, u, page))
    ensures Logical(Installed(p, u, page), u) == page
    ensures forall v :: v in p.frames && v != u ==> Logical(Installed(p, u, page), v) == Logical(p, v)
  {
    hide SlotPage, Image;
    var q := Installed(p, u, page);
    assert p.free[0] in p.free;
    assert forall k :: k in p.free <==> k == p.free[0] || k in p.free[1..];
    forall v ensures Loaded(q, v) <==> Loaded(p, v) || v == u { }
    assert u !in p.table;
    assert forall v :: v in q.table <==> v in p.table || v == u;
  }

  lemma FileLoadedKeeps(p: Space, u: nat)
    requires Valid(p) && u in p.frames && !p.frames[u].load && p.frames[u].kind != SWAP && p.free != []
    requires Readable(p.files, p.frames[u])
    ensures p.frames[u].readBytes <= PGSIZE && Valid(FileLoaded(p, u)) && FileLoaded(p, u).frames.Keys == p.frames.Keys
    ensures forall v :: v in p.frames ==> Logical(FileLoaded(p, u), v) == Logical(p, v)
  {
    hide Image, InFile, SwapOk, MemoryOk, TableOk, SlotPage;
    var q := FileLoaded(p, u);
    InstalledMemory(p, u, Image(p.files, p.frames[u]));
    SwapSame(p, q);
    ImageFrame(q.files, p.frames[u], q.frames[u]);
    assert FilesOk(q) by { InstalledFiles(p, q, u); }
    assert CleanOk(q) by { hide FilesOk, Logical; InstalledClean(p, q, u); }
  }

  lemma ImageFrame(files: map<nat, seq<byte>>, f: Frame, g: Frame)
    requires f.readBytes <= PGSIZE && g.file == f.file && g.ofs == f.ofs && g.readBytes == f.readBytes
    ensures Image(files, g) == Image(files, f) && (InFile(files, g) <==> InFile(files, f)) && (Readable(files, g) <==> Readable(files, f))
  {
  }

  lemma InstalledFiles(p: Space, q: Space, u: nat)
    requires FilesOk(p) && u in p.frames && q.files == p.files && q.frames.Keys == p.frames.Keys
    requires forall v :: v in p.frames ==> q.frames[v] == p.frames[v].(load := q.frames[v].load, kpage := q.frames[v].kpage)
    ensures FilesOk(q)
  {
    forall v | v in q.frames
      ensures q.frames[v].kind == p.frames[v].kind && q.frames[v].readBytes == p.frames[v].readBytes
      ensures q.frames[v].index == p.frames[v].index && q.frames[v].file == p.frames[v].file && q.frames[v].ofs == p.frames[v].ofs
    {
      assert q.frames[v] == p.frames[v].(load := q.frames[v].load, kpage := q.frames[v].kpage);
    }
  }

  lemma InstalledClean(p: Space, q: Space, u: nat)
    requires CleanOk(p) && u in p.frames && q.files == p.files && q.frames.Keys == p.frames.Keys && q.dirty == p.dirty - {u}
    requires forall v :: v in p.frames && v != u ==> q.frames[v] == p.frames[v] && Logical(q, v) == Logical(p, v)
    requires q.frames[u].kind != SWAP ==>
               q.frames[u].readBytes <= PGSIZE && Readable(q.files, q.frames[u]) && Logical(q, u) == Image(q.files, q.frames[u])
    ensures CleanOk(q)
  {
    hide Logical, Image, InFile, Readable;
  }

  lemma SwapLoadedKeeps(p: Space, u: nat)
    requires Valid(p) && SwappedOut(p, u) && p.free != []
    ensures 0 <= p.frames[u].index < |p.swapBits| && 8 * |p.swapBits| <= |p.swap|
    ensures Valid(SwapLoaded(p, u)) && SwapLoaded(p, u).frames.Keys == p.frames.Keys
    ensures forall v :: v in p.frames ==> Logical(SwapLoaded(p, u), v) == Logical(p, v)
  {
    hide Image, InFile, MemoryOk, TableOk, SlotPage;
    SlotKnown(p, u);
    var i := p.frames[u].index;
    var p1 := p.(swapBits := p.swapBits[i := false]);
    var q := SwapLoaded(p, u);
    BitsDoNotMatter(p, p1);
    InstalledMemory(p1, u, SlotPage(p.swap, i));
    hide SwapOk, FilesOk, CleanOk, Logical;
    SwapLess(p, q, u);
    InstalledFiles(p, q, u);
    InstalledClean(p, q, u);
  }

  lemma SlotKnown(p: Space, u: nat)
    requires SwapOk(p) && SwappedOut(p, u)
    ensures 0 <= p.frames[u].index < |p.swapBits| && 8 * |p.swapBits| <= |p.swap|
    ensures Logical(p, u) == SlotPage(p.swap, p.frames[u].index)
  {
  }

  lemma BitsDoNotMatter(p: Space, q: Space)
    requires q == p.(swapBits := q.swapBits)
    ensures (TableOk(p) ==> TableOk(q)) && (MemoryOk(p) ==> MemoryOk(q))
    ensures forall v :: v in p.frames ==> Logical(q, v) == Logical(p, v)
  {
    hide SlotPage, Image;
    assert forall v :: Loaded(q, v) <==> Loaded(p, v);
  }

  // ----- new pages -----

  /** `frame_table_insert` for a file page: nothing is read yet. */
  function Mapped(p: Space, u: nat, f: Frame): Space
  {
    p.(frames := p.frames[u := f])
  }

  /** No mapped range may overlap another page's range of the same file. */
  ghost predicate FitsBeside(p: Space, f: Frame)
  {
    && f.readBytes <= PGSIZE && (f.kind == MMAP ==> InFile(p.files, f))
    && forall v :: v in p.frames && p.frames[v].kind != SWAP && (f.kind == MMAP || p.frames[v].kind == MMAP) ==>
         Apart(f, p.frames[v])
  }

  lemma MappedKeeps(p: Space, u: nat, f: Frame)
    requires Valid(p) && u !in p.frames && !f.load && f.kind != SWAP && f.index == -1 && FitsBeside(p, f)
    ensures Valid(Mapped(p, u, f)) && Logical(Mapped(p, u, f), u) == Image(p.files, f)
    ensures forall v :: v in p.frames ==> Logical(Mapped(p, u, f), v) == Logical(p, v)
  {
    hide Image, SlotPage, TableOk, MemoryOk, SwapOk, CleanOk, InFile;
    var q := Mapped(p, u, f);
    forall v ensures (Loaded(q, v) <==> Loaded(p, v)) && (SwappedOut(q, v) <==> SwappedOut(p, v)) { }
    MappedRest(p, q, u);
  }

  lemma MappedRest(p: Space, q: Space, u: nat)
    requires TableOk(p) && MemoryOk(p) && SwapOk(p) && CleanOk(p) && u !in p.frames && u in q.frames && q == Mapped(p, u, q.frames[u])
    requires forall v :: (Loaded(q, v) <==> Loaded(p, v)) && (SwappedOut(q, v) <==> SwappedOut(p, v))
    ensures TableOk(q) && MemoryOk(q) && SwapOk(q) && CleanOk(q)
  {
    hide Image, SlotPage, InFile, SwapOk;
    SwapSame(p, q);
  }

  const STACK_FRAME: Frame := Frame(SWAP, false, 0, -1, 0, 0, 0)

  /** A zeroed page of the stack, resident from the start. */
  function StackAdded(p: Space, u: nat): Space
    requires p.free != []
  {
    Installed(Mapped(p, u, STACK_FRAME), u, Zeros(PGSIZE))
  }

  lemma StackAddedKeeps(p: Space, u: nat)
    requires Valid(p) && u !in p.frames && p.free != []
    ensures Valid(StackAdded(p, u)) && Logical(StackAdded(p, u), u) == Zeros(PGSIZE)
    ensures forall v :: v in p.frames ==> Logical(StackAdded(p, u), v) == Logical(p, v)
  {
    hide SwapOk, FilesOk, CleanOk, TableOk, MemoryOk, Logical;
    var m, q := Mapped(p, u, STACK_FRAME), StackAdded(p, u);
    StackMapped(p, u);
    InstalledMemory(m, u, Zeros(PGSIZE));
    forall v | v in p.frames ensures Logical(q, v) == Logical(p, v) { assert v in m.frames && v != u; }
    StackRest(p, q, u);
  }

  lemma StackMapped(p: Space, u: nat)
    requires TableOk(p) && MemoryOk(p) && u !in p.frames
    ensures var m := Mapped(p, u, STACK_FRAME);
            TableOk(m) && MemoryOk(m) && forall v :: v in p.frames ==> Logical(m, v) == Logical(p, v)
  {
    hide Image, SlotPage;
    forall v ensures Loaded(Mapped(p, u, STACK_FRAME), v) <==> Loaded(p, v) { }
  }

  lemma StackRest(p: Space, q: Space, u: nat)
    requires SwapOk(p) && FilesOk(p) && CleanOk(p) && u !in p.frames && u in q.frames
    requires q.frames == p.frames[u := q.frames[u]] && q.frames[u].kind == SWAP && q.frames[u].load
    requires q.swap == p.swap && q.swapBits == p.swapBits && q.files == p.files && q.dirty == p.dirty - {u}
    requires forall v :: v in p.frames ==> Logical(q, v) == Logical(p, v)
    ensures SwapOk(q) && FilesOk(q) && CleanOk(q)
  {
    hide Image, InFile, Logical, SwapOk;
    forall v ensures SwappedOut(q, v) <==> SwappedOut(p, v) { }
    SwapSame(p, q);
    assert FilesOk(q) by { hide CleanOk; }
    assert CleanOk(q) by { hide FilesOk; }
  }

  // ----- the process writes, and gives pages up -----

  /** A store by the process: the hardware sets both bits. */
  function Stored(p: Space, u: nat, ofs: nat, data: seq<byte>): Space
    requires Loaded(p, u) && p.frames[u].kpage in p.memory && ofs + |data| <= PGSIZE
  {
    var kp := p.frames[u].kpage;
    p.(memory := p.memory[kp := Patch(p.memory[kp], ofs, data)], accessed := p.accessed + {u}, dirty := p.dirty + {u})
  }

  lemma StoredKeeps(p: Space, u: nat, ofs: nat, data: seq<byte>)
    requires Valid(p) && Loaded(p, u) && ofs + |data| <= PGSIZE
    ensures p.frames[u].kpage in p.memory && Valid(Stored(p, u, ofs, data))
    ensures forall v :: v in p.frames ==>
              Logical(Stored(p, u, ofs, data), v) == if v == u then Patch(Logical(p, u), ofs, data) else Logical(p, v)
  {
    hide Image, SlotPage, Patch, InFile;
    var q := Stored(p, u, ofs, data);
    forall v ensures (Loaded(q, v) <==> Loaded(p, v)) && (SwappedOut(q, v) <==> SwappedOut(p, v)) { }
    StoredLogical(p, q, u, Patch(p.memory[p.frames[u].kpage], ofs, data));
    hide Logical, SwapOk, TableOk, FilesOk;
    SwapSame(p, q);
    assert CleanOk(q);
    assert FilesOk(q) by { InstalledFiles(p, q, u); }
    assert TableOk(q) by { TableSame(p, q); }
  }

  lemma TableSame(p: Space, q: Space)
    requires TableOk(p) && q.table == p.table && forall v :: Loaded(q, v) <==> Loaded(p, v)
    ensures TableOk(q)
  {
  }

  lemma StoredLogical(p: Space, q: Space, u: nat, page: Page)
    requires MemoryOk(p) && Loaded(p, u) && q == p.(memory := p.memory[p.frames[u].kpage := page], accessed := q.accessed, dirty := q.dirty)
    ensures MemoryOk(q) && Logical(q, u) == page && forall v :: v in p.frames && v != u ==> Logical(q, v) == Logical(p, v)
  {
    hide Image, SlotPage;
    forall v ensures Loaded(q, v) <==> Loaded(p, v) { }
  }

  /** `frame_free` of an unshared frame. */
  function Freed(p: Space, u: nat): Space
    requires u in p.frames
  {
    var f := p.frames[u];
    var q := p.(frames := p.frames - {u});
    if f.load then
      var k := Position(p.table, u);
      q.(table := if k < |p.table| then Drop(p.table, k) else p.table, free := p.free + [f.kpage])
    else if f.kind != FILE && 0 <= f.index < |p.swapBits| then q.(swapBits := p.swapBits[f.index := !p.swapBits[f.index]])
    else q
  }

  function Position(s: seq<nat>, u: nat): (k: nat)
    ensures k <= |s| && u !in s[..k] && (k < |s| ==> s[k] == u) && (u in s ==> k < |s|)
  {
    if s == [] || s[0] == u then 0 else 1 + Position(s[1..], u)
  }

  lemma FreedTable(p: Space, u: nat)
    requires TableOk(p) && MemoryOk(p) && u in p.frames
    ensures TableOk(Freed(p, u)) && MemoryOk(Freed(p, u))
  {
    hide Position, Drop;
    var q := Freed(p, u);
    forall v ensures Loaded(q, v) <==> Loaded(p, v) && v != u { }
    if p.frames[u].load {
      Dropped(p.table, Position(p.table, u));
      EvictMemory(p, q, u);
    }
  }

  lemma FreedLogical(p: Space, u: nat, v: nat)
    requires u in p.frames && v in p.frames && v != u
    ensures v in Freed(p, u).frames && Freed(p, u).frames[v] == p.frames[v] && Logical(Freed(p, u), v) == Logical(p, v)
  {
    hide Image, SlotPage, Position, Drop;
  }

  lemma FreedKeeps(p: Space, u: nat)
    requires Valid(p) && u in p.frames
    ensures Valid(Freed(p, u)) && Freed(p, u).frames.Keys == p.frames.Keys - {u}
    ensures forall v :: v in p.frames && v != u ==> Logical(Freed(p, u), v) == Logical(p, v)
  {
    hide Image, SlotPage, InFile, CleanOk, TableOk, MemoryOk, SwapOk, FilesOk, Logical, Position, Drop;
    var q := Freed(p, u);
    FreedTable(p, u);
    forall v ensures SwappedOut(q, v) <==> SwappedOut(p, v) && v != u { }
    FreedSwap(p, u);
    forall v | v in p.frames && v != u ensures v in q.frames && q.frames[v] == p.frames[v] && Logical(q, v) == Logical(p, v) {
      FreedLogical(p, u, v);
    }
    FewerFiles(p, q);
    FewerClean(p, q);
  }

  lemma FewerFiles(p: Space, q: Space)
    requires FilesOk(p) && q.files == p.files && q.frames.Keys <= p.frames.Keys && forall v :: v in q.frames ==> q.frames[v] == p.frames[v]
    ensures FilesOk(q)
  {
  }

  lemma FewerClean(p: Space, q: Space)
    requires CleanOk(p) && q.files == p.files && q.dirty == p.dirty && q.frames.Keys <= p.frames.Keys
    requires forall v :: v in q.frames ==> q.frames[v] == p.frames[v] && Logical(q, v) == Logical(p, v)
    ensures CleanOk(q)
  {
    hide Logical, Image, InFile;
  }

  lemma FreedSwap(p: Space, u: nat)
    requires SwapOk(p) && FilesOk(p) && u in p.frames
    requires var q := Freed(p, u); forall v :: SwappedOut(q, v) <==> SwappedOut(p, v) && v != u
    ensures SwapOk(Freed(p, u))
  {
    hide Position, Drop, InFile;
    var q := Freed(p, u);
    if SwappedOut(p, u) { SwapLess(p, q, u); } else { SwapSame(p, q); }
  }
}
