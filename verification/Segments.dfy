/**
 Loading an ELF segment: the header check, the page arithmetic of `load`, and
 the lazy pages laid out by `load_segment`, against what the segment is
 supposed to mean in memory.
 */
module Segments {
  import opened Bytes
  import opened Paging

  const PHYS_BASE: word := 0xC000_0000

  /** The fields of a PT_LOAD program header that matter ([ELF1] 2-2 to 2-4). */
  datatype Phdr = Phdr(offset: word, vaddr: word, filesz: word, memsz: word)

  /** Addition of `uint32_t`. */
  function Add32(a: word, b: word): word { (a + b) % 0x1_0000_0000 }

  function Sub32(a: word, b: word): word { (a - b) % 0x1_0000_0000 }

  function PgOfs(a: word): word { a % 4096 }

  function PgDown(a: word): word { a - a % 4096 }

  /** `ROUND_UP (a, PGSIZE)` in unsigned arithmetic. */
  function RoundUp32(a: word): word { (a + 4095) / 4096 * 4096 % 0x1_0000_0000 }

  /** `validate_segment`, test by test. */
  predicate ValidSegment(ph: Phdr, fileLength: nat)
  {
    && PgOfs(ph.offset) == PgOfs(ph.vaddr)
    && ph.offset <= fileLength
    && ph.memsz >= ph.filesz
    && ph.memsz != 0
    && ph.vaddr < PHYS_BASE
    && Add32(ph.vaddr, ph.memsz) < PHYS_BASE
    && Add32(ph.vaddr, ph.memsz) >= ph.vaddr
    && ph.vaddr >= 4096
  }

  /** The same in true integers: the tests accept exactly the segments that lie in the user's address space. */
  lemma AcceptedIff(ph: Phdr, fileLength: nat)
    ensures ValidSegment(ph, fileLength) <==>
            && ph.offset % 4096 == ph.vaddr % 4096 && ph.offset <= fileLength
            && ph.filesz <= ph.memsz && 0 < ph.memsz
            && 4096 <= ph.vaddr && ph.vaddr + ph.memsz < 0xC000_0000
  {
    if ph.vaddr < PHYS_BASE && ph.vaddr + ph.memsz >= 0x1_0000_0000 {
      assert Add32(ph.vaddr, ph.memsz) == ph.vaddr + ph.memsz - 0x1_0000_0000;
    } else if ph.vaddr < PHYS_BASE {
      NoCarry(ph.vaddr, ph.memsz);
    }
  }

  /** The arguments of `load_segment` as `load` computes them (process.c:405-424). */
  datatype Plan = Plan(ofs: word, upage: word, readBytes: word, zeroBytes: word)

  function PlanFor(ph: Phdr): Plan
  {
    var pageOffset := PgOfs(ph.vaddr);
    if ph.filesz > 0 then
      var readBytes := Add32(pageOffset, ph.filesz);
      Plan(PgDown(ph.offset), PgDown(ph.vaddr), readBytes, Sub32(RoundUp32(Add32(pageOffset, ph.memsz)), readBytes))
    else
      Plan(PgDown(ph.offset), PgDown(ph.vaddr), 0, RoundUp32(Add32(pageOffset, ph.memsz)))
  }

  /** The assertions at the head of `load_segment`. */
  predicate Sound(s: Plan)
  {
    (s.readBytes + s.zeroBytes) % 4096 == 0 && s.upage % 4096 == 0 && s.ofs % 4096 == 0
  }

  /** For an accepted header no unsigned sum or difference wraps, and the pages cover the segment. */
  lemma PlanIsSound(ph: Phdr, fileLength: nat)
    requires ValidSegment(ph, fileLength)
    ensures var s := PlanFor(ph);
            && Sound(s)
            && (ph.filesz > 0 ==> s.readBytes == ph.vaddr % 4096 + ph.filesz) && (ph.filesz == 0 ==> s.readBytes == 0)
            && s.upage + (ph.vaddr % 4096) == ph.vaddr && s.ofs + (ph.vaddr % 4096) == ph.offset
            && ph.vaddr % 4096 + ph.memsz <= s.readBytes + s.zeroBytes < ph.vaddr % 4096 + ph.memsz + 4096
            && s.upage + s.readBytes + s.zeroBytes <= PHYS_BASE
  {
    hide RoundUp32, Add32, Sub32, PgOfs, PgDown;
    var o: word := PgOfs(ph.vaddr);
    NoWrap(ph.vaddr, ph.memsz);
    PageSplit(ph.vaddr);
    PageSplit(ph.offset);
    NoCarry(o, ph.memsz);
    NoCarry(o, ph.filesz);
    RoundUpFacts(o + ph.memsz, PgDown(ph.vaddr));
    if ph.filesz > 0 { NoBorrow(RoundUp32(o + ph.memsz), o + ph.filesz); }
  }

  lemma PageSplit(a: word)
    ensures PgOfs(a) == a % 4096 && PgDown(a) + PgOfs(a) == a && PgDown(a) % 4096 == 0
  {
  }

  lemma NoCarry(a: word, b: word)
    requires a + b < 0x1_0000_0000
    ensures Add32(a, b) == a + b
  {
  }

  lemma NoBorrow(a: word, b: word)
    requires b <= a
    ensures Sub32(a, b) == a - b
  {
  }

  /** The two wrap-around tests together mean that the end of the segment is a true sum. */
  lemma NoWrap(a: word, n: word)
    requires a < PHYS_BASE && a <= Add32(a, n) < PHYS_BASE
    ensures a + n < PHYS_BASE
  {
  }

  lemma RoundUpFacts(end: word, base: word)
    requires base % 4096 == 0 && base + end < PHYS_BASE
    ensures RoundUp32(end) % 4096 == 0 && end <= RoundUp32(end) < end + 4096 && base + RoundUp32(end) <= PHYS_BASE
  {
    var q := (end + 4095) / 4096;
    assert 4096 * q <= end + 4095 < 4096 * q + 4096;
    assert base + 4096 * q <= PHYS_BASE by {
      assert base == 4096 * (base / 4096) && PHYS_BASE == 4096 * (PHYS_BASE / 4096);
    }
  }

  /** One page laid out lazily: nothing is read until the first fault. */
  datatype LazyPage = LazyPage(upage: word, ofs: nat, readBytes: nat)

  function Min(a: int, b: int): int { if a < b then a else b }

  function Clamp(x: int): nat { if x < 0 then 0 else if x > 4096 then 4096 else x }

  /** Page `k` of a segment. */
  function PageAt(s: Plan, k: nat): LazyPage
    requires s.upage + 4096 * k < 0x1_0000_0000
  {
    LazyPage(s.upage + 4096 * k, s.ofs + Min(4096 * k, s.readBytes), Clamp(s.readBytes - 4096 * k))
  }

  /** The loop of `load_segment`, in unsigned arithmetic that never underflows. */
  method LoadSegment(s: Plan) returns (pages: seq<LazyPage>)
    requires Sound(s) && s.upage + s.readBytes + s.zeroBytes <= PHYS_BASE
    ensures |pages| == (s.readBytes + s.zeroBytes) / 4096
    ensures forall k :: 0 <= k < |pages| ==> s.upage + 4096 * k < 0x1_0000_0000 && pages[k] == PageAt(s, k)
  {
    pages := [];
    var readBytes: int, zeroBytes: int, ofs: int, upage: int := s.readBytes, s.zeroBytes, s.ofs, s.upage;
    while readBytes > 0 || zeroBytes > 0
      invariant 0 <= readBytes <= s.readBytes && 0 <= zeroBytes
      invariant readBytes + zeroBytes + 4096 * |pages| == s.readBytes + s.zeroBytes
      invariant upage == s.upage + 4096 * |pages| <= PHYS_BASE
      invariant readBytes == if 4096 * |pages| < s.readBytes then s.readBytes - 4096 * |pages| else 0
      invariant ofs == s.ofs + Min(4096 * |pages|, s.readBytes)
      invariant forall k :: 0 <= k < |pages| ==> s.upage + 4096 * k < 0x1_0000_0000 && pages[k] == PageAt(s, k)
      decreases readBytes + zeroBytes
    {
      assert (readBytes + zeroBytes) % 4096 == 0;
      var pageReadBytes := if readBytes < 4096 then readBytes else 4096;
      var pageZeroBytes := 4096 - pageReadBytes;
      assert zeroBytes >= pageZeroBytes;
      pages := pages + [LazyPage(upage, ofs, pageReadBytes)];
      readBytes := readBytes - pageReadBytes;
      zeroBytes := zeroBytes - pageZeroBytes;
      ofs := ofs + pageReadBytes;
      upage := upage + 4096;
    }
  }

  /** The frame that `install_frame` creates for a lazy page of file `file`. */
  function FrameFor(page: LazyPage, file: nat): Frame
  {
    Frame(FILE, false, 0, -1, file, page.ofs, page.readBytes)
  }

  /** What eager loading would have put into memory. */
  function Eager(content: seq<byte>, s: Plan): seq<byte>
    requires s.ofs + s.readBytes <= |content|
  {
    content[s.ofs..s.ofs + s.readBytes] + Zeros(s.zeroBytes)
  }

  /** Page faults on the lazy pages produce, page by page, exactly the eagerly loaded image. */
  lemma LazyEqualsEager(files: map<nat, seq<byte>>, file: nat, s: Plan, k: nat)
    requires Sound(s) && file in files && s.ofs + s.readBytes <= |files[file]|
    requires 4096 * k < s.readBytes + s.zeroBytes && s.upage + 4096 * k < 0x1_0000_0000
    ensures Readable(files, FrameFor(PageAt(s, k), file)) && 4096 * k + 4096 <= |Eager(files[file], s)|
    ensures PageAt(s, k).readBytes <= PGSIZE
    ensures Image(files, FrameFor(PageAt(s, k), file)) == Eager(files[file], s)[4096 * k..4096 * k + 4096]
  {
    var f := FrameFor(PageAt(s, k), file);
    var eager := Eager(files[file], s);
    var x, y := Image(files, f), eager[4096 * k..4096 * k + 4096];
    forall j | 0 <= j < 4096 ensures x[j] == y[j] {
      assert y[j] == eager[4096 * k + j];
      if j < f.readBytes {
        assert x[j] == files[file][f.ofs + j];
      } else {
        assert x[j] == 0;
      }
    }
  }

  /** The header check does not look at the end of the file part: some page faults exactly if it is missing. */
  lemma LazyFailsIff(files: map<nat, seq<byte>>, file: nat, s: Plan)
    requires Sound(s) && file in files && s.upage + s.readBytes + s.zeroBytes <= PHYS_BASE
    ensures (forall k: nat :: 4096 * k < s.readBytes + s.zeroBytes ==> Readable(files, FrameFor(PageAt(s, k), file)))
            <==> s.readBytes == 0 || s.ofs + s.readBytes <= |files[file]|
  {
    if s.readBytes > 0 && s.ofs + s.readBytes > |files[file]| {
      var last: nat := (s.readBytes - 1) / 4096;
      assert 4096 * last < s.readBytes <= 4096 * last + 4096;
      var f := FrameFor(PageAt(s, last), file);
      assert f.ofs + f.readBytes == s.ofs + s.readBytes && f.readBytes > 0;
      assert !Readable(files, f);
    }
  }

  /** A segment of two pages of file bytes: accepted for a file that has only one. */
  const TWO_PAGES: Phdr := Phdr(0, 0x0804_8000, 8192, 8192)

  lemma TwoPagesAccepted()
    ensures ValidSegment(TWO_PAGES, 4096) && PlanFor(TWO_PAGES) == Plan(0, 0x0804_8000, 8192, 0)
  {
    hide PgOfs, PgDown, Add32, Sub32, RoundUp32;
    Aligned(0);
    Aligned(0x8048);
    RoundUpFacts(8192, 0);
    assert RoundUp32(8192) == 8192;
    NoCarry(0, 8192);
    NoCarry(0x0804_8000, 8192);
    NoBorrow(8192, 8192);
  }

  lemma Aligned(q: nat)
    requires 4096 * q < 0x1_0000_0000
    ensures PgOfs(4096 * q) == 0 && PgDown(4096 * q) == 4096 * q
  {
  }

  /** The header is accepted, but the segment's second page can never be loaded. */
  lemma AcceptedButUnreadable(files: map<nat, seq<byte>>, file: nat)
    requires file in files && |files[file]| == 4096
    ensures ValidSegment(TWO_PAGES, |files[file]|) && PlanFor(TWO_PAGES).upage + 4096 < 0x1_0000_0000
    ensures !Readable(files, FrameFor(PageAt(PlanFor(TWO_PAGES), 1), file))
  {
    TwoPagesAccepted();
    hide PlanFor, ValidSegment;
    var page := PageAt(PlanFor(TWO_PAGES), 1);
    assert page.ofs == 4096 && page.readBytes == 4096;
  }

  /** The byte that the process finds at address `a` once its page has been loaded. */
  function ByteAt(files: map<nat, seq<byte>>, file: nat, s: Plan, a: nat): byte
    requires s.upage <= a < s.upage + s.readBytes + s.zeroBytes <= PHYS_BASE
  {
    var k := (a - s.upage) / 4096;
    Image(files, FrameFor(PageAt(s, k), file))[(a - s.upage) % 4096]
  }

  /**
   What a PT_LOAD header means: the file bytes of the segment appear at its
   virtual address, and the rest of its memory size is zero.
   */
  lemma SegmentMeaning(files: map<nat, seq<byte>>, file: nat, ph: Phdr, i: nat)
    requires file in files && ValidSegment(ph, |files[file]|) && i < ph.memsz
    requires ph.filesz == 0 || ph.offset + ph.filesz <= |files[file]|
    ensures var s := PlanFor(ph);
            && s.upage <= ph.vaddr + i < s.upage + s.readBytes + s.zeroBytes <= PHYS_BASE
            && ByteAt(files, file, s, ph.vaddr + i) == if i < ph.filesz then files[file][ph.offset + i] else 0
  {
    assert ph.offset <= |files[file]|;
    hide PlanFor, ValidSegment, Sound, ByteAt, Eager;
    PlanIsSound(ph, |files[file]|);
    var s := PlanFor(ph);
    SegmentByte(files, file, s, ph.vaddr + i);
    EagerByte(files[file], s, ph.vaddr + i - s.upage);
  }

  /** A lazily loaded byte is the eagerly loaded one. */
  lemma SegmentByte(files: map<nat, seq<byte>>, file: nat, s: Plan, a: nat)
    requires Sound(s) && file in files && s.ofs + s.readBytes <= |files[file]|
    requires s.upage <= a < s.upage + s.readBytes + s.zeroBytes <= PHYS_BASE
    ensures a - s.upage < |Eager(files[file], s)| && ByteAt(files, file, s, a) == Eager(files[file], s)[a - s.upage]
  {
    hide Image, FrameFor, PageAt, Sound;
    var d := a - s.upage;
    var k := d / 4096;
    LazyEqualsEager(files, file, s, k);
    var eager := Eager(files[file], s);
    assert eager[4096 * k..4096 * k + 4096][d % 4096] == eager[4096 * k + d % 4096];
  }

  lemma EagerByte(content: seq<byte>, s: Plan, d: nat)
    requires s.ofs + s.readBytes <= |content| && d < s.readBytes + s.zeroBytes
    ensures d < |Eager(content, s)| && Eager(content, s)[d] == if d < s.readBytes then content[s.ofs + d] else 0
  {
  }

  /** Header check, page arithmetic and lazy layout together, as `load` runs them for PT_LOAD. */
  method LoadHeader(ph: Phdr, fileLength: nat) returns (ok: bool, pages: seq<LazyPage>)
    ensures ok <==> ValidSegment(ph, fileLength)
    ensures ok <==> && ph.offset % 4096 == ph.vaddr % 4096 && ph.offset <= fileLength
                    && ph.filesz <= ph.memsz && 0 < ph.memsz
                    && 4096 <= ph.vaddr && ph.vaddr + ph.memsz < 0xC000_0000
    ensures ok ==> |pages| == (PlanFor(ph).readBytes + PlanFor(ph).zeroBytes) / 4096
    ensures ok ==> forall k :: 0 <= k < |pages| ==>
              PlanFor(ph).upage + 4096 * k < 0x1_0000_0000 && pages[k] == PageAt(PlanFor(ph), k)
  {
    AcceptedIff(ph, fileLength);
    ok, pages := ValidSegment(ph, fileLength), [];
    if ok {
      PlanIsSound(ph, fileLength);
      pages := LoadSegment(PlanFor(ph));
    }
  }
}
