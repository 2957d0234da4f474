/**
 Inodes as files: `inode_create`, `inode_open`, `inode_close`, `inode_read_at`
 and `inode_write_at` over the index tree. The abstraction is a map from inode
 sectors to byte strings.
 */
module Inode {
  import opened Bytes
  import opened IndexTree
  import opened FreeMap
  import opened BufferCache
  import opened BlockStore

  const INODE_MAGIC: word := 0x494e4f44
  const ROOT_DIR_SECTOR: word := 1

  // ----- the inode sector -----

  function EncodeInode(d: InodeData): Block
  {
    ToLe32(d.length) + ToLe32(d.sp) + ToLe32(d.ind) + ToLe32(d.din) + ToLe32(INODE_MAGIC) +
    [if d.isdir then 1 else 0, 0, 0, 0] + ToLe32(d.parent) + Zeros(484)
  }

  function DecodeInode(b: Block): InodeData
  {
    InodeData(Le32(b, 0), Le32(b, 4), Le32(b, 8), Le32(b, 12), b[20] != 0, Le32(b, 24))
  }

  /** Closing and reopening an inode gives back the same fields. */
  lemma InodeRoundTrip(d: InodeData)
    ensures DecodeInode(EncodeInode(d)) == d
    ensures var b := EncodeInode(d);
            && Le32(b, 0) == d.length && Le32(b, 4) == d.sp && Le32(b, 8) == d.ind && Le32(b, 12) == d.din
            && Le32(b, 16) == INODE_MAGIC && b[20] == (if d.isdir then 1 else 0) && Le32(b, 24) == d.parent
  {
    var b := EncodeInode(d);
    assert b[16..20] == ToLe32(INODE_MAGIC);
    Le32At(b, 16, INODE_MAGIC);
    assert b[0..4] == ToLe32(d.length);
    assert b[4..8] == ToLe32(d.sp);
    assert b[8..12] == ToLe32(d.ind);
    assert b[12..16] == ToLe32(d.din);
    assert b[24..28] == ToLe32(d.parent);
    Le32At(b, 0, d.length);
    Le32At(b, 4, d.sp);
    Le32At(b, 8, d.ind);
    Le32At(b, 12, d.din);
    Le32At(b, 24, d.parent);
  }

  // ----- files -----

  /** `struct inode`: the in-memory copy wins over the inode sector while it is open. */
  datatype OpenInode = OpenInode(data: InodeData, openCnt: nat, denyWriteCnt: nat)

  type OpenTable = map<nat, OpenInode>

  function DataOf(v: Volume, open: OpenTable, i: nat): InodeData
  {
    if i in open then open[i].data else DecodeInode(Stored(v, Header(i)))
  }

  ghost predicate Consistent(v: Volume, open: OpenTable)
  {
    && open.Keys <= v.nodes.Keys
    && (forall i :: i in v.nodes ==> NodeOf(DataOf(v, open, i)) == v.nodes[i])
    && (forall i :: i in open ==> open[i].openCnt > 0)
  }

  /** The bytes of file `i`. */
  ghost function Content(v: Volume, open: OpenTable, i: nat): seq<byte>
    requires i in v.nodes
  {
    var bytes := Flat(Blocks(v, i));
    var length := DataOf(v, open, i).length;
    if length <= |bytes| then bytes[..length] else bytes
  }

  ghost function Files(v: Volume, open: OpenTable): map<nat, seq<byte>>
  {
    map i | i in v.nodes :: Content(v, open, i)
  }

  lemma ContentLength(v: Volume, open: OpenTable, i: nat)
    requires i in v.nodes && NodeOf(DataOf(v, open, i)) == v.nodes[i]
    ensures DataOf(v, open, i).length <= 512 * v.nodes[i].blocks
    ensures |Content(v, open, i)| == DataOf(v, open, i).length
    ensures Content(v, open, i) == Flat(Blocks(v, i))[..DataOf(v, open, i).length]
  {
  }

  /** What POSIX would call a write: zeros up to the new end, then the range replaced. */
  function Written(c: seq<byte>, offset: nat, data: seq<byte>): (r: seq<byte>)
    ensures |r| == Max(|c|, offset + |data|)
    ensures forall k :: 0 <= k < |r| ==>
              r[k] == if offset <= k < offset + |data| then data[k - offset] else if k < |c| then c[k] else 0
  {
    var padded := if |c| < offset + |data| then c + Zeros(offset + |data| - |c|) else c;
    Patch(padded, offset, data)
  }

  /** The sum of two non-negative `off_t` values turns negative. */
  predicate Wraps(offset: nat, size: nat) { offset + size >= 0x8000_0000 }

  /** `offset + size` in the arithmetic of `off_t`. */
  function OffSum(offset: nat, size: nat): int
  {
    if Wraps(offset, size) then offset + size - 0x1_0000_0000 else offset + size
  }

  /** Bytes that a write of `size` bytes stores: all, unless the sum wraps; then the file does not grow. */
  function Stores(length: nat, offset: nat, size: nat): (n: nat)
    ensures n <= size
  {
    if !Wraps(offset, size) then size
    else if offset >= length then 0
    else if length - offset < size then length - offset else size
  }

  /** The contents after `inode_write_at`. */
  function WrittenBy(c: seq<byte>, offset: nat, data: seq<byte>): seq<byte>
  {
    Written(c, From(|c|, offset, |data|), data[..Stores(|c|, offset, |data|)])
  }

  /** Byte by byte: the new length, the data where they fall inside it, zeros in the gap, the old bytes elsewhere. */
  lemma WrittenBytes(c: seq<byte>, offset: nat, data: seq<byte>)
    ensures |WrittenBy(c, offset, data)| == if Wraps(offset, |data|) then |c| else Max(|c|, offset + |data|)
    ensures forall k :: 0 <= k < |WrittenBy(c, offset, data)| ==>
              WrittenBy(c, offset, data)[k] ==
              if offset <= k < offset + |data| then data[k - offset] else if k < |c| then c[k] else 0
  {
    hide Written;
    var n := Stores(|c|, offset, |data|);
    if !Wraps(offset, |data|) {
      assert data[..n] == data;
    } else if offset >= |c| {
      assert data[..n] == [];
    } else {
      assert forall j :: 0 <= j < n ==> data[..n][j] == data[j];
    }
  }

  /** Where those bytes go; a write that stores nothing may begin behind the end without growing the file. */
  function From(length: nat, offset: nat, size: nat): nat
  {
    if Wraps(offset, size) && offset > length then length else offset
  }

  /** How many bytes a read returns. */
  function ReadCount(length: nat, offset: nat, size: int): (n: nat)
    ensures offset >= length || size <= 0 ==> n == 0
    ensures offset < length && size > 0 ==> n == if size < length - offset then size else length - offset
  {
    Max(0, Min(size, length - offset))
  }

  function Min(a: int, b: int): int { if a < b then a else b }

  /** What a read returns: the requested range, cut off at the end of the file. */
  function ReadRange(c: seq<byte>, offset: nat, size: int): (r: seq<byte>)
    ensures |r| == ReadCount(|c|, offset, size)
    ensures forall k :: 0 <= k < |r| ==> r[k] == c[offset + k]
  {
    if size <= 0 || offset >= |c| then []
    else if offset + size <= |c| then c[offset..offset + size] else c[offset..]
  }

  /** Reading a written range gives back exactly the bytes that were stored. */
  lemma ReadBack(c: seq<byte>, offset: nat, data: seq<byte>)
    ensures ReadRange(WrittenBy(c, offset, data), offset, |data|) == data[..Stores(|c|, offset, |data|)]
    ensures !Wraps(offset, |data|) ==> ReadRange(WrittenBy(c, offset, data), offset, |data|) == data
  {
    var w, n := WrittenBy(c, offset, data), Stores(|c|, offset, |data|);
    var r := ReadRange(w, offset, |data|);
    assert |r| == n;
    WrittenBytes(c, offset, data);
    hide WrittenBy;
    forall k | 0 <= k < n ensures r[k] == data[..n][k] { assert r[k] == w[offset + k]; }
    assert r == data[..n];
  }

  /** A change confined to file `i` changes only entry `i` of the file map. */
  lemma OtherFiles(v: Volume, open: OpenTable, w: Volume, open': OpenTable, i: nat)
    requires Consistent(v, open) && OnlyFile(v, w, i) && i in open && i in w.nodes
    requires i in open' && open' == open[i := open'[i]] && open'[i].openCnt > 0
    requires NodeOf(open'[i].data) == w.nodes[i]
    ensures Consistent(w, open')
    ensures Files(w, open') == Files(v, open)[i := Content(w, open', i)]
  {
    hide DecodeInode, Flat, Content, NodeOf, DataOf, Files, Blocks;
    forall j | j in v.nodes && j != i
      ensures j in w.nodes && DataOf(w, open', j) == DataOf(v, open, j) && Content(w, open', j) == Content(v, open, j)
      ensures w.nodes[j] == v.nodes[j]
    {
      OtherFile(v, open, w, open', i, j);
    }
    OpenData(w, open', i);
    FilesBut(v, open, w, open', i);
  }

  lemma FilesBut(v: Volume, open: OpenTable, w: Volume, open': OpenTable, i: nat)
    requires i in v.nodes && w.nodes.Keys == v.nodes.Keys
    requires forall j :: j in v.nodes && j != i ==> Content(w, open', j) == Content(v, open, j)
    ensures Files(w, open') == Files(v, open)[i := Content(w, open', i)]
  {
    hide Content;
  }

  lemma OpenData(v: Volume, open: OpenTable, i: nat)
    requires i in open
    ensures DataOf(v, open, i) == open[i].data
  {
  }

  lemma OtherFile(v: Volume, open: OpenTable, w: Volume, open': OpenTable, i: nat, j: nat)
    requires OnlyFile(v, w, i) && j in v.nodes && j != i
    requires (j in open <==> j in open') && (j in open ==> open[j] == open'[j])
    ensures j in w.nodes && DataOf(w, open', j) == DataOf(v, open, j) && Content(w, open', j) == Content(v, open, j)
  {
    hide Flat, Blocks, DecodeInode;
  }

  /** The sector `byte_to_sector` finds for byte `pos` of file `i`. */
  function SectorOf(v: Volume, i: nat, pos: nat): nat
  {
    Loc(v, Data(i, pos / 512))
  }

  /**
   Separation: over all files, two bytes share a sector exactly when they are in
   the same 512-byte block of the same file; every such sector is marked and is
   neither an index block nor an inode sector.
   */
  lemma OffsetsSeparate(v: Volume, open: OpenTable, i: nat, a: nat, j: nat, b: nat)
    requires Inv(v) && Consistent(v, open) && i in v.nodes && j in v.nodes
    requires a < DataOf(v, open, i).length && b < DataOf(v, open, j).length
    ensures SectorOf(v, i, a) == SectorOf(v, j, b) <==> i == j && a / 512 == b / 512
    ensures SectorOf(v, i, a) < |v.view| && v.marked[SectorOf(v, i, a)]
    ensures forall q :: Live(v, q) && !q.Data? ==> Loc(v, q) != SectorOf(v, i, a)
  {
    hide DecodeInode;
    ContentLength(v, open, i);
    ContentLength(v, open, j);
    assert Live(v, Data(i, a / 512)) && Live(v, Data(j, b / 512));
  }

  datatype WriteResult = Wrote(count: nat) | Corrupts

  class FileSystem {
    const store: BlockStore
    var open: OpenTable

    ghost predicate Valid()
      reads this, store, store.cache, store.freeMap
    {
      store.Valid() && Consistent(store.Vol(), open)
    }

    /** The abstract state: every file's contents. */
    ghost function Contents(): map<nat, seq<byte>>
      reads this, store, store.cache, store.freeMap
    {
      Files(store.Vol(), open)
    }

    constructor (device: seq<Block>)
      requires 2 <= |device| <= 0x1_0000_0000
      ensures Valid() && Contents() == map[] && fresh(store) && fresh(store.cache) && fresh(store.freeMap)
      ensures forall k :: 0 <= k < |device| ==> |store.freeMap.bits| == |device| && store.freeMap.bits[k] == (k < 2)
    {
      store := new BlockStore(device);
      open := map[];
    }

    /**
     Reads `size` bytes at `offset`. A file is copied sector by sector, but the
     result is the requested slice of its contents, and nothing changes.
     */
    method ReadAt(i: nat, size: int, offset: nat) returns (buffer: seq<byte>)
      requires Valid() && i in open
      modifies store.cache
      ensures Valid() && Contents() == old(Contents()) && store.Vol() == old(store.Vol())
      ensures buffer == ReadRange(Contents()[i], offset, size)
      // min (size, length - offset) bytes, the file's own
      ensures |buffer| == Max(0, Min(size, open[i].data.length - offset))
      ensures forall k :: 0 <= k < |buffer| ==> offset + k < |Contents()[i]| && buffer[k] == Contents()[i][offset + k]
    {
      hide Inv, Consistent, Coherent, Content, Files, Flat, DataOf, NodeOf, Stored, Loc, Live, Blocks;
      ghost var v := store.Vol();
      OpenInfo(v, open, i);
      ghost var c := Content(v, open, i);
      var d := open[i].data;
      buffer := [];
      if offset > d.length { return; }
      var left, at := size, offset;
      while left > 0
        invariant store.Valid() && store.Vol() == v
        invariant at == offset + |buffer| && |buffer| <= Max(0, size) && left == size - |buffer|
        invariant offset <= at <= Max(offset, d.length) && buffer == c[offset..at]
        decreases left
      {
        var sectorIdx := store.ByteToSector(i, d, at);
        var sectorOfs := at % 512;
        var inodeLeft := d.length - at;
        var sectorLeft := 512 - sectorOfs;
        var minLeft := if inodeLeft < sectorLeft then inodeLeft else sectorLeft;
        var chunk := if left < minLeft then left else minLeft;
        if chunk <= 0 { break; }
        var b := store.cache.ReadBlock(sectorIdx);
        ReadChunk(v, open, i, offset, at, chunk);
        StoredIs(v, Data(i, at / 512), sectorIdx);
        buffer := buffer + b[sectorOfs..sectorOfs + chunk];
        left, at := left - chunk, at + chunk;
      }
    }

    /** A write and a read of the same range: the data come back, or the part of them that was stored. */
    method WriteThenRead(i: nat, buffer: seq<byte>, offset: nat) returns (r: WriteResult, got: seq<byte>)
      requires Valid() && i in open && offset < 0x8000_0000 && |buffer| < 0x8000_0000
      modifies this, store, store.cache, store.freeMap
      ensures r.Wrote? <==> WriteWorks(old(open)[i], FreeCount(old(store.freeMap.bits)), offset, |buffer|)
      ensures r.Wrote? && old(open)[i].denyWriteCnt == 0 ==> r.count == Stores(old(open)[i].data.length, offset, |buffer|)
      ensures r.Wrote? && old(open)[i].denyWriteCnt == 0 ==> got == buffer[..r.count]
      ensures r.Wrote? && old(open)[i].denyWriteCnt == 0 && !Wraps(offset, |buffer|) ==> got == buffer
    {
      hide Inv, Consistent, Coherent, Content, Files, DataOf, WriteWorks, ReadRange, WrittenBy, Stores;
      OpenInfo(store.Vol(), open, i);
      ReadBack(Contents()[i], offset, buffer);
      r := WriteAt(i, buffer, offset);
      got := [];
      if r.Wrote? { got := ReadAt(i, |buffer|, offset); }
    }

    /** The copy loop of `inode_write_at` (inode.c:760-805). */
    method CopyIn(i: nat, d: InodeData, buffer: seq<byte>, offset: nat, ghost c: seq<byte>, ghost from: nat, ghost data: seq<byte>)
      returns (count: nat)
      requires store.Valid() && i in store.nodes && Pointers(d, store.nodes[i]) && store.nodes[i] == NodeOf(d)
      requires data <= buffer && from + |data| <= d.length && (data != [] ==> from == offset)
      requires |data| < |buffer| ==> d.length <= offset + |data|
      requires Progress(Flat(Blocks(store.Vol(), i)), d.length, c, from, data, 0)
      modifies store.cache
      ensures store.Valid() && OnlyFile(old(store.Vol()), store.Vol(), i)
      ensures count == |data| && Progress(Flat(Blocks(store.Vol(), i)), d.length, c, from, data, |data|)
    {
      hide Inv, Coherent, OnlyFile, Progress, Flat, Blocks, NodeOf, Written, Patch;
      ghost var v := store.Vol();
      SameIsOnlyFile(v, i);
      NodeCovers(d);
      count := 0;
      while count < |buffer|
        invariant 0 <= count <= |data| && store.Valid() && OnlyFile(v, store.Vol(), i)
        invariant Progress(Flat(Blocks(store.Vol(), i)), d.length, c, from, data, count)
      {
        var at := offset + count;
        var size := |buffer| - count;
        assert at < d.length ==> at / 512 < store.nodes[i].blocks;
        var sectorIdx := store.ByteToSector(i, d, at);
        var sectorOfs := at % 512;
        var inodeLeft := d.length - at;
        var sectorLeft := 512 - sectorOfs;
        var minLeft := if inodeLeft < sectorLeft then inodeLeft else sectorLeft;
        var chunk := if size < minLeft then size else minLeft;
        if chunk <= 0 { break; }
        ghost var w := store.Vol();
        assert Live(w, Data(i, at / 512));
        assert buffer[count..count + chunk] == data[count..count + chunk];
        store.PatchBlock(i, at / 512, sectorIdx, sectorOfs, buffer[count..count + chunk]);
        BlocksCount(w, i);
        WriteChunk(Blocks(w, i), d.length, c, from, data, count, chunk);
        OnlyFileTransitive(v, w, store.Vol(), i);
        count := count + chunk;
      }
    }

    /** Grows an open file so that a write of `size` bytes at `offset` fits (inode.c:755-758). */
    method Extend(i: nat, offset: nat, buffer: seq<byte>) returns (ok: bool)
      requires Valid() && i in open && open[i].data.length < offset + |buffer| && !Wraps(offset, |buffer|)
      modifies this, store, store.cache, store.freeMap
      ensures ok <==> GrowthDomain(old(open)[i].data.length, offset, |buffer|) &&
                      FreeCount(old(store.freeMap.bits)) >= Needed(old(open)[i].data.length, offset, |buffer|)
      ensures ok ==> store.Valid() && OnlyFile(old(store.Vol()), store.Vol(), i)
      ensures ok ==> FreeCount(store.freeMap.bits) == FreeCount(old(store.freeMap.bits)) - Needed(old(open)[i].data.length, offset, |buffer|)
      ensures ok ==> i in open && open == old(open)[i := open[i]] && open[i] == old(open)[i].(data := open[i].data)
      ensures ok ==> i in store.nodes && store.nodes[i] == NodeOf(open[i].data) && open[i].data.length == offset + |buffer|
      ensures ok ==> Progress(Flat(Blocks(store.Vol(), i)), offset + |buffer|, old(Contents())[i], offset, buffer, 0)
    {
      hide Inv, Consistent, Coherent, Content, Files, Flat, OnlyFile, Grown, Progress, GrowthDomain, Needed, NodeOf, DataOf;
      ghost var v := store.Vol();
      OpenInfo(v, open, i);
      var d;
      ok, d := store.FileGrowth(i, open[i].data, offset, |buffer|);
      if ok {
        open := open[i := open[i].(data := d)];
        GrownProgress(store.Vol(), i, Content(v, old(open), i), offset, buffer);
      }
    }

    /**
     `inode_write_at`. `Corrupts` stands for the growths that the C code does not
     survive; the contract says exactly which those are. Every other write
     behaves as on a byte string and leaves all other files alone. If the sum of
     offset and size wraps, the file does not grow and the loop stops at its end.
     */
    method WriteAt(i: nat, buffer: seq<byte>, offset: nat) returns (r: WriteResult)
      requires Valid() && i in open && offset < 0x8000_0000 && |buffer| < 0x8000_0000
      modifies this, store, store.cache, store.freeMap
      ensures r.Wrote? <==> WriteWorks(old(open)[i], FreeCount(old(store.freeMap.bits)), offset, |buffer|)
      ensures r.Wrote? ==> Valid() && i in open && open == old(open)[i := open[i]]
      ensures r.Wrote? ==> open[i] == old(open)[i].(data := open[i].data)
      ensures r.Wrote? ==> r.count == if old(open)[i].denyWriteCnt > 0 then 0
                                      else Stores(old(open)[i].data.length, offset, |buffer|)
      ensures r.Wrote? && old(open)[i].denyWriteCnt == 0 ==>
                r.count == if offset + |buffer| < 0x8000_0000 then |buffer|
                           else Max(0, Min(|buffer|, old(open)[i].data.length - offset))
      ensures r.Wrote? ==>
                Contents() == if old(open)[i].denyWriteCnt > 0 then old(Contents())
                              else old(Contents())[i := WrittenBy(old(Contents())[i], offset, buffer)]
      ensures r.Wrote? ==> FreeCount(store.freeMap.bits) ==
                           FreeCount(old(store.freeMap.bits)) - SectorsTaken(old(open)[i], offset, |buffer|)
    {
      hide Inv, Consistent, Coherent, Content, Files, Flat, OnlyFile, Grown, Progress, GrowthDomain, Needed, NodeOf, DataOf;
      ghost var v := store.Vol();
      ghost var was := open;
      OpenInfo(v, open, i);
      ghost var c := Content(v, open, i);
      if open[i].denyWriteCnt > 0 { return Wrote(0); }
      LengthBound(v, i, open[i].data);
      ghost var from, data := From(|c|, offset, |buffer|), buffer[..Stores(|c|, offset, |buffer|)];
      if OffSum(offset, |buffer|) > open[i].data.length {
        assert data == buffer;
        var ok := Extend(i, offset, buffer);
        if !ok { return Corrupts; }
      } else {
        StartProgress(v, open, i, from, data);
        SameIsOnlyFile(v, i);
      }
      ghost var w := store.Vol();
      NodePointers(open[i].data);
      var count := CopyIn(i, open[i].data, buffer, offset, c, from, data);
      OnlyFileTransitive(v, w, store.Vol(), i);
      ConsistentCount(v, was, i);
      OtherFiles(v, was, store.Vol(), open, i);
      EndProgress(store.Vol(), open, i, c, from, data);
      r := Wrote(count);
    }

    /**
     `inode_create` on a sector that is marked and plays no role yet: a file of
     `length` zeros, whose inode is on disk but not open. The source reports
     success even if the growth has failed; `intact` says whether it has not.
     */
    method InodeCreate(sector: nat, length: nat, isdir: bool) returns (success: bool, intact: bool)
      requires Valid() && length < 0x8000_0000 && Spare(store.Vol(), sector)
      modifies store, store.cache, store.freeMap
      ensures success && (intact <==> CreateWorks(FreeCount(old(store.freeMap.bits)), length))
      ensures intact ==> Valid() && Contents() == old(Contents())[sector := Zeros(length)]
      ensures intact ==> FreeCount(store.freeMap.bits) == FreeCount(old(store.freeMap.bits)) - Needed(0, 0, length)
      ensures intact ==> sector !in open && DataOf(store.Vol(), open, sector).isdir == isdir && DataOf(store.Vol(), open, sector).parent == 1
    {
      hide Inv, Consistent, Coherent, Content, Files, Flat, OnlyFile, Grown, GrowthDomain, Needed, NodeOf, DataOf, Blocks;
      ghost var v := store.Vol();
      var d := InodeData(0, 0, 0, 0, isdir, 0);
      NewHeader(v, open, sector, d);
      store.nodes := store.nodes[sector := NodeOf(d)];
      ghost var w := store.Vol();
      success := true;
      intact, d := store.FileGrowth(sector, d, 0, length);
      if !intact { return; }
      ghost var u := store.Vol();
      HeaderSpace(u, sector);
      NodeIgnoresParent(d, ROOT_DIR_SECTOR);
      d := d.(parent := ROOT_DIR_SECTOR);
      store.cache.WriteAt(sector, 0, EncodeInode(d));
      assert Patch(u.view[sector], 0, EncodeInode(d)) == EncodeInode(d);
      CreatedFile(v, open, w, u, sector, d, length);
    }

    /**
     `free_map_allocate (1, &inode_sector) && inode_create (...)` (filesys.c:66-67).
     Without a free sector it fails cleanly.
     */
    method Create(length: nat, isdir: bool) returns (success: bool, intact: bool, sector: nat)
      requires Valid() && length < 0x8000_0000
      modifies store, store.cache, store.freeMap
      ensures success <==> FreeCount(old(store.freeMap.bits)) > 0
      ensures !success ==> Valid() && intact && Contents() == old(Contents()) && store.freeMap.bits == old(store.freeMap.bits)
      ensures success ==> (intact <==> CreateWorks(FreeCount(old(store.freeMap.bits)) - 1, length))
      ensures success && intact ==> Valid() && sector !in old(Contents()) && Contents() == old(Contents())[sector := Zeros(length)]
      ensures success && intact ==> FreeCount(store.freeMap.bits) == FreeCount(old(store.freeMap.bits)) - 1 - Needed(0, 0, length)
      ensures success && intact ==> sector !in open && DataOf(store.Vol(), open, sector).isdir == isdir && DataOf(store.Vol(), open, sector).parent == 1
    {
      hide Inv, Consistent, Coherent, Content, Files, Flat, OnlyFile, CreateWorks, Needed, DataOf, Blocks;
      ghost var v := store.Vol();
      success, sector := store.TakeSector();
      if !success { return false, true, sector; }
      FreshIsSpare(v, open, sector);
      success, intact := InodeCreate(sector, length, isdir);
    }

    /** `inode_open`: at most one in-memory copy per inode sector. */
    method Open(i: nat)
      requires Valid() && i in store.nodes
      modifies this, store.cache
      ensures Valid() && Contents() == old(Contents()) && store.Vol() == old(store.Vol())
      ensures i in open && open == old(open)[i := open[i]] && open[i].data == DataOf(store.Vol(), old(open), i)
      ensures i in old(open) ==> open[i] == old(open)[i].(openCnt := old(open)[i].openCnt + 1)
      ensures i !in old(open) ==> open[i].openCnt == 1 && open[i].denyWriteCnt == 0
    {
      hide Inv, Coherent, Content, Files, Flat, NodeOf, Blocks, DecodeInode, Consistent;
      ghost var v := store.Vol();
      HeaderSpace(v, i);
      if i in open {
        ConsistentCount(v, open, i);
        OpenedFile(v, open, i, open[i].(openCnt := open[i].openCnt + 1));
        open := open[i := open[i].(openCnt := open[i].openCnt + 1)];
      } else {
        var b := store.cache.ReadBlock(i);
        OpenedFile(v, open, i, OpenInode(DecodeInode(b), 1, 0));
        open := open[i := OpenInode(DecodeInode(b), 1, 0)];
      }
    }

    /** `inode_close` of an inode that is not marked removed: the last close writes the inode sector. */
    method Close(i: nat)
      requires Valid() && i in open
      modifies this, store.cache
      ensures Valid() && Contents() == old(Contents()) && store.nodes == old(store.nodes)
      ensures DataOf(store.Vol(), open, i) == old(open)[i].data
      ensures open == if old(open)[i].openCnt == 1 then old(open) - {i}
                      else old(open)[i := old(open)[i].(openCnt := old(open)[i].openCnt - 1)]
    {
      hide Inv, Coherent, Content, Files, Flat, NodeOf, Blocks, EncodeInode, Consistent, DecodeInode;
      ghost var v := store.Vol();
      OpenInfo(v, open, i);
      ConsistentCount(v, open, i);
      var o := open[i];
      if o.openCnt == 1 {
        HeaderSpace(v, i);
        store.cache.WriteAt(i, 0, EncodeInode(o.data));
        assert Patch(v.view[i], 0, EncodeInode(o.data)) == EncodeInode(o.data);
        ClosedFile(v, open, i);
        open := open - {i};
      } else {
        OpenedFile(v, open, i, o.(openCnt := o.openCnt - 1));
        open := open[i := o.(openCnt := o.openCnt - 1)];
      }
    }
  }

  /** `inode_create` succeeds exactly when the initial growth does. */
  predicate CreateWorks(free: int, length: nat)
  {
    GrowthDomain(0, 0, length) && free >= Needed(0, 0, length)
  }

  /** With one free sector left even an empty file cannot be created: its growth takes two. */
  lemma EmptyFileNeedsTwo()
    ensures !CreateWorks(1, 0) && CreateWorks(2, 0)
  {
  }

  /** Marked in the free map, but not used by any file. */
  ghost predicate Spare(v: Volume, s: nat)
  {
    s < |v.view| && s < |v.marked| && v.marked[s] && forall q :: Live(v, q) ==> Loc(v, q) != s
  }

  lemma FreshIsSpare(v: Volume, open: OpenTable, s: nat)
    requires Inv(v) && Consistent(v, open) && Fresh(v, s)
    ensures var w := v.(marked := v.marked[s := true]);
            Inv(w) && Consistent(w, open) && Files(w, open) == Files(v, open) && Spare(w, s) && s !in Files(v, open)
  {
    var w := v.(marked := v.marked[s := true]);
    forall q ensures Loc(w, q) == Loc(v, q) && (Live(w, q) <==> Live(v, q)) { MarkAt(v, s, q); }
    assert AllMarked(w) && Separate(w);
    assert s in v.nodes ==> Live(v, Header(s));
    SameFiles(v, open, w);
  }

  lemma SameFiles(v: Volume, open: OpenTable, w: Volume)
    requires Consistent(v, open) && w.nodes == v.nodes && forall q :: Stored(w, q) == Stored(v, q)
    ensures Consistent(w, open) && Files(w, open) == Files(v, open)
  {
    hide Flat, DecodeInode;
    forall j | j in v.nodes ensures DataOf(w, open, j) == DataOf(v, open, j) && Blocks(w, j) == Blocks(v, j) { }
  }

  lemma NodeIgnoresParent(d: InodeData, parent: word)
    ensures NodeOf(d.(parent := parent)) == NodeOf(d)
  {
  }

  lemma {:induction false} MarkAt(v: Volume, s: nat, q: Role)
    requires s < |v.marked|
    ensures Loc(v.(marked := v.marked[s := true]), q) == Loc(v, q)
    decreases Rank(q)
  {
    if ParentOf(q).Under? { MarkAt(v, s, ParentOf(q).role); }
  }

  /** An inode sector that joins the volume with no blocks below it. */
  lemma NewHeader(v: Volume, open: OpenTable, s: nat, d: InodeData)
    requires Inv(v) && Consistent(v, open) && Spare(v, s) && d.length == 0
    ensures s !in v.nodes && s !in open && s < |v.view|
    ensures var w := v.(nodes := v.nodes[s := NodeOf(d)]);
            && Inv(w) && Keeps(v, w) && (forall j :: j in v.nodes ==> w.nodes[j] == v.nodes[j])
            && Flat(Blocks(w, s)) == []
  {
    var w := v.(nodes := v.nodes[s := NodeOf(d)]);
    if s in v.nodes { assert Live(v, Header(s)); }
    HeadersKept(v, s, NodeOf(d));
    OneMoreRole(v, w, Header(s));
  }

  lemma HeadersKept(v: Volume, s: nat, n: Node)
    requires Inv(v) && s !in v.nodes
    ensures var w := v.(nodes := v.nodes[s := n]);
            Keeps(v, w) && forall q :: Live(v, q) ==> Loc(w, q) == Loc(v, q)
  {
    hide Inv;
    forall q | Live(v, q) ensures Loc(v.(nodes := v.nodes[s := n]), q) == Loc(v, q) { HeaderAt(v, s, n, q); }
  }

  /** A role that comes alive in a spare sector keeps the tree well formed. */
  lemma OneMoreRole(v: Volume, w: Volume, r: Role)
    requires Inv(v) && w.view == v.view && w.marked == v.marked && Spare(v, Loc(w, r))
    requires forall q :: Live(w, q) ==> q == r || Live(v, q)
    requires forall q :: Live(v, q) ==> Loc(w, q) == Loc(v, q)
    requires forall j :: j in w.nodes ==> Shaped(w.nodes[j])
    ensures Inv(w)
  {
    forall q | Live(w, q)
      ensures q != r ==> Loc(w, q) == Loc(v, q) && Loc(v, q) != Loc(w, r)
      ensures Loc(w, q) < |w.view| && w.marked[Loc(w, q)]
    {
      if q != r { assert Live(v, q); }
    }
  }

  lemma {:induction false} HeaderAt(v: Volume, s: nat, n: Node, q: Role)
    requires Inv(v) && s !in v.nodes && Live(v, q)
    ensures Loc(v.(nodes := v.nodes[s := n]), q) == Loc(v, q)
    decreases Rank(q)
  {
    if ParentOf(q).Under? {
      ParentLive(v, q);
      HeaderAt(v, s, n, ParentOf(q).role);
    }
  }

  lemma HeaderSpace(v: Volume, i: nat)
    requires Inv(v) && i in v.nodes
    ensures i < |v.view|
  {
    assert Live(v, Header(i));
  }

  /** Opening or reopening changes no file. */
  lemma OpenedFile(v: Volume, open: OpenTable, i: nat, o: OpenInode)
    requires Consistent(v, open) && i in v.nodes && o.openCnt > 0 && o.data == DataOf(v, open, i)
    ensures Consistent(v, open[i := o]) && Files(v, open[i := o]) == Files(v, open)
  {
    hide DecodeInode, Flat;
    forall j | j in v.nodes ensures DataOf(v, open[i := o], j) == DataOf(v, open, j) { }
  }

  /** Writing the inode back and dropping the in-memory copy changes no file. */
  lemma ClosedFile(v: Volume, open: OpenTable, i: nat)
    requires Inv(v) && Consistent(v, open) && i in open && i < |v.view|
    ensures var w := v.(view := v.view[i := EncodeInode(open[i].data)]);
            && Inv(w) && Consistent(w, open - {i}) && Files(w, open - {i}) == Files(v, open)
            && DataOf(w, open - {i}, i) == open[i].data
  {
    hide DecodeInode, Flat, EncodeInode, Inv;
    var blk := EncodeInode(open[i].data);
    var w := v.(view := v.view[i := blk]);
    InodeRoundTrip(open[i].data);
    HeaderWrite(v, i, blk);
    forall j | j in v.nodes ensures DataOf(w, open - {i}, j) == DataOf(v, open, j) { }
    forall j | j in v.nodes ensures Content(w, open - {i}, j) == Content(v, open, j) { }
  }

  /** Writing one inode sector changes no blocks and no other inode sector. */
  lemma HeaderWrite(v: Volume, i: nat, blk: Block)
    requires Inv(v) && i in v.nodes
    ensures i < |v.view|
    ensures var w := v.(view := v.view[i := blk]);
            && Inv(w) && Stored(w, Header(i)) == blk
            && (forall j :: j in v.nodes ==> Blocks(w, j) == Blocks(v, j))
            && (forall j :: j in v.nodes && j != i ==> Stored(w, Header(j)) == Stored(v, Header(j)))
  {
    assert Live(v, Header(i));
    DataWrite(v, Header(i), blk);
    var w := v.(view := v.view[i := blk]);
    forall j | j in v.nodes ensures Blocks(w, j) == Blocks(v, j) {
      forall b: nat | b < v.nodes[j].blocks ensures Stored(w, Data(j, b)) == Stored(v, Data(j, b)) {
        assert Live(v, Data(j, b));
      }
    }
    forall j | j in v.nodes && j != i ensures Stored(w, Header(j)) == Stored(v, Header(j)) {
      assert Live(v, Header(j));
    }
  }

  /** A new inode sector, the growth below it and the write of the sector add exactly one file of zeros. */
  lemma CreatedFile(v: Volume, open: OpenTable, w: Volume, u: Volume, s: nat, d: InodeData, length: nat)
    requires Inv(v) && Consistent(v, open) && s !in v.nodes && s !in open
    requires s in w.nodes && w.nodes.Keys == v.nodes.Keys + {s} && |w.view| == |v.view| && Keeps(v, w)
    requires forall j :: j in v.nodes ==> w.nodes[j] == v.nodes[j]
    requires Inv(u) && OnlyFile(w, u, s) && s in u.nodes && u.nodes[s] == NodeOf(d) && d.length == length
    requires Grown(u, s, [], 0, length) && s < |u.view|
    ensures var x := u.(view := u.view[s := EncodeInode(d)]);
            && Inv(x) && Consistent(x, open) && Files(x, open) == Files(v, open)[s := Zeros(length)]
            && DataOf(x, open, s) == d
  {
    hide DecodeInode, Flat, EncodeInode, Inv, Blocks, Content, NodeOf, DataOf, Files, Consistent, Grown, Keeps;
    var x := u.(view := u.view[s := EncodeInode(d)]);
    InodeRoundTrip(d);
    HeaderWrite(u, s, EncodeInode(d));
    forall j | j in v.nodes
      ensures j in x.nodes && x.nodes[j] == v.nodes[j]
      ensures DataOf(x, open, j) == DataOf(v, open, j) && Content(x, open, j) == Content(v, open, j)
    {
      KeptFile(v, w, j);
      SameFile(v, x, open, j);
    }
    ZerosGrown(u, s, length);
    NewFile(x, open, s, d);
    AddedFile(v, x, open, s);
  }

  lemma AddedFile(v: Volume, w: Volume, open: OpenTable, s: nat)
    requires Consistent(v, open) && s in w.nodes && w.nodes.Keys == v.nodes.Keys + {s} && s !in v.nodes && s !in open
    requires forall j :: j in v.nodes ==> w.nodes[j] == v.nodes[j] && DataOf(w, open, j) == DataOf(v, open, j)
    requires forall j :: j in v.nodes ==> Content(w, open, j) == Content(v, open, j)
    requires NodeOf(DataOf(w, open, s)) == w.nodes[s]
    ensures Consistent(w, open) && Files(w, open) == Files(v, open)[s := Content(w, open, s)]
  {
    hide Content, DataOf, NodeOf;
  }

  lemma SameFile(v: Volume, w: Volume, open: OpenTable, j: nat)
    requires j in v.nodes && j in w.nodes && Blocks(w, j) == Blocks(v, j) && Stored(w, Header(j)) == Stored(v, Header(j))
    ensures DataOf(w, open, j) == DataOf(v, open, j) && Content(w, open, j) == Content(v, open, j)
  {
    hide Flat, DecodeInode, Blocks;
  }

  lemma NewFile(v: Volume, open: OpenTable, s: nat, d: InodeData)
    requires s in v.nodes && s !in open && DecodeInode(Stored(v, Header(s))) == d && d.length <= |Flat(Blocks(v, s))|
    ensures DataOf(v, open, s) == d && Content(v, open, s) == Flat(Blocks(v, s))[..d.length]
  {
  }

  lemma KeptFile(v: Volume, w: Volume, j: nat)
    requires j in v.nodes && j in w.nodes && w.nodes[j] == v.nodes[j] && Keeps(v, w)
    ensures Blocks(w, j) == Blocks(v, j) && Stored(w, Header(j)) == Stored(v, Header(j))
  {
    assert Live(v, Header(j));
    forall b: nat | b < v.nodes[j].blocks ensures Stored(w, Data(j, b)) == Stored(v, Data(j, b)) {
      assert Live(v, Data(j, b));
    }
  }

  lemma ZerosGrown(u: Volume, s: nat, length: nat)
    requires s in u.nodes && Grown(u, s, [], 0, length)
    ensures length <= |Flat(Blocks(u, s))| && Flat(Blocks(u, s))[..length] == Zeros(length)
  {
    var bytes := Flat(Blocks(u, s));
    assert forall k :: 0 <= k < length ==> bytes[k] == 0;
  }

  /** Exactly the writes that `inode_write_at` performs correctly. */
  predicate WriteWorks(o: OpenInode, free: nat, offset: nat, size: nat)
  {
    || o.denyWriteCnt > 0
    || Wraps(offset, size)
    || offset + size <= o.data.length
    || (GrowthDomain(o.data.length, offset, size) && free >= Needed(o.data.length, offset, size))
  }

  function SectorsTaken(o: OpenInode, offset: nat, size: nat): int
  {
    if o.denyWriteCnt > 0 || Wraps(offset, size) || offset + size <= o.data.length then 0 else Needed(o.data.length, offset, size)
  }

  /** The largest file is far below 2^31 bytes. */
  lemma LengthBound(v: Volume, i: nat, d: InodeData)
    requires Inv(v) && i in v.nodes && v.nodes[i] == NodeOf(d)
    ensures d.length <= MAX_BLOCKS * 512
  {
    assert Shaped(v.nodes[i]);
  }

  lemma GrownProgress(v: Volume, i: nat, c: seq<byte>, offset: nat, data: seq<byte>)
    requires i in v.nodes && |c| <= offset + |data| && Grown(v, i, c, offset, offset + |data|)
    ensures Progress(Flat(Blocks(v, i)), offset + |data|, c, offset, data, 0)
  {
    var bytes := Flat(Blocks(v, i));
    forall k | 0 <= k < |c| ensures bytes[k] == c[k] { assert bytes[..|c|][k] == c[k]; }
  }

  lemma StartProgress(v: Volume, open: OpenTable, i: nat, offset: nat, data: seq<byte>)
    requires Consistent(v, open) && i in open && offset + |data| <= open[i].data.length
    ensures i in v.nodes && Progress(Flat(Blocks(v, i)), open[i].data.length, Content(v, open, i), offset, data, 0)
  {
    OpenInfo(v, open, i);
  }

  lemma EndProgress(v: Volume, open: OpenTable, i: nat, c: seq<byte>, offset: nat, data: seq<byte>)
    requires Consistent(v, open) && i in open && i in v.nodes
    requires Progress(Flat(Blocks(v, i)), open[i].data.length, c, offset, data, |data|)
    ensures Content(v, open, i) == Written(c, offset, data)
  {
    OpenInfo(v, open, i);
    assert forall k :: 0 <= k < open[i].data.length ==> Content(v, open, i)[k] == Flat(Blocks(v, i))[k];
  }

  lemma NodeCovers(d: InodeData)
    ensures forall at: nat :: at < d.length ==> at / 512 < NodeOf(d).blocks
  {
  }

  lemma BlocksCount(v: Volume, i: nat)
    requires i in v.nodes
    ensures |Blocks(v, i)| == v.nodes[i].blocks
  {
  }

  lemma NodePointers(d: InodeData)
    ensures Pointers(d, NodeOf(d))
  {
  }

  lemma ConsistentCount(v: Volume, open: OpenTable, i: nat)
    requires Consistent(v, open) && i in open
    ensures open[i].openCnt > 0
  {
  }

  /** Bytes already written by an unfinished write, everything else as it will be. */
  ghost predicate Progress(bytes: seq<byte>, length: nat, c: seq<byte>, offset: nat, data: seq<byte>, done: nat)
  {
    && done <= |data| && |Written(c, offset, data)| == length <= |bytes|
    && forall k :: 0 <= k < length && !(offset + done <= k < offset + |data|) ==> bytes[k] == Written(c, offset, data)[k]
  }

  /** One sector's share of a write. */
  lemma WriteChunk(bs: seq<Block>, length: nat, c: seq<byte>, offset: nat, data: seq<byte>, done: nat, chunk: nat)
    requires Progress(Flat(bs), length, c, offset, data, done) && done + chunk <= |data|
    requires var at := offset + done; at / 512 < |bs| && at % 512 + chunk <= 512
    ensures var j := (offset + done) / 512;
            Progress(Flat(bs[j := Patch(bs[j], (offset + done) % 512, data[done..done + chunk])]), length, c, offset, data, done + chunk)
  {
    hide Patch, Written, Flat;
    FlatPatch(bs, (offset + done) / 512, (offset + done) % 512, data[done..done + chunk]);
  }

  /** What `Consistent` says about one open inode. */
  lemma OpenInfo(v: Volume, open: OpenTable, i: nat)
    requires Consistent(v, open) && i in open
    ensures i in v.nodes && v.nodes[i] == NodeOf(open[i].data) && Pointers(open[i].data, v.nodes[i])
    ensures open[i].data.length <= 512 * v.nodes[i].blocks
    ensures DataOf(v, open, i) == open[i].data && Files(v, open).Keys == v.nodes.Keys && Files(v, open)[i] == Content(v, open, i)
    ensures |Content(v, open, i)| == open[i].data.length
    ensures Content(v, open, i) == Flat(Blocks(v, i))[..open[i].data.length]
    ensures forall at: nat :: at < open[i].data.length ==> at / 512 < v.nodes[i].blocks
  {
    ContentLength(v, open, i);
  }

  lemma StoredIs(v: Volume, q: Role, s: nat)
    requires s == Loc(v, q) < |v.view|
    ensures Stored(v, q) == v.view[s]
  {
  }

  /** One sector's share of a read. */
  lemma ReadChunk(v: Volume, open: OpenTable, i: nat, from: nat, at: nat, chunk: nat)
    requires from <= at && i in v.nodes && NodeOf(DataOf(v, open, i)) == v.nodes[i]
    requires chunk <= 512 - at % 512 && at + chunk <= DataOf(v, open, i).length && at / 512 < v.nodes[i].blocks
    ensures at + chunk <= |Content(v, open, i)|
    ensures Content(v, open, i)[from..at] + Stored(v, Data(i, at / 512))[at % 512..at % 512 + chunk] ==
            Content(v, open, i)[from..at + chunk]
  {
    ContentLength(v, open, i);
    var b := Stored(v, Data(i, at / 512));
    assert Blocks(v, i)[at / 512] == b;
    var x, y := b[at % 512..at % 512 + chunk], Content(v, open, i)[at..at + chunk];
    forall k | 0 <= k < chunk ensures x[k] == y[k] {
      assert (at + k) / 512 == at / 512 && (at + k) % 512 == at % 512 + k;
    }
    assert x == y;
  }
}
