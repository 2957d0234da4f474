/**
 Directories: a table of 20-byte slots stored in a file, read and written only
 through `inode_read_at` and `inode_write_at`. The abstraction is a finite map
 from names to inode sectors.
 */
module Directory {
  import opened Bytes
  import opened IndexTree
  import opened FreeMap
  import opened BufferCache
  import opened BlockStore
  import opened Inode

  const NAME_MAX: nat := 14
  const SLOT: nat := 20  // sizeof (struct dir_entry)

  // ----- one slot -----

  /** `struct dir_entry`: a sector number, a NUL-terminated name in 15 bytes, the in-use flag. */
  type DirEntry = e: seq<byte> | |e| == 20 witness Zeros(20)

  predicate InUse(e: DirEntry) { e[19] != 0 }

  function NameOf(e: DirEntry): seq<byte> { CString(e[4..19]) }

  function SectorIn(e: DirEntry): word { Le32(e, 0) }

  predicate ValidName(name: seq<byte>)
  {
    1 <= |name| <= NAME_MAX && 0 !in name
  }

  /** `strlcpy` into a slot that keeps its stale bytes behind the new NUL. */
  function MakeEntry(stale: DirEntry, name: seq<byte>, sector: word): DirEntry
    requires ValidName(name)
  {
    ToLe32(sector) + name + [0] + stale[5 + |name|..19] + [1]
  }

  lemma EntryRoundTrip(stale: DirEntry, name: seq<byte>, sector: word)
    requires ValidName(name)
    ensures var e := MakeEntry(stale, name, sector);
            && InUse(e) && NameOf(e) == name && SectorIn(e) == sector
            && Le32(e, 0) == sector && e[4..4 + |name|] == name && e[4 + |name|] == 0 && e[19] == 1
  {
    var e := MakeEntry(stale, name, sector);
    assert e[0..4] == ToLe32(sector);
    Le32At(e, 0, sector);
    var field := e[4..19];
    assert field[..|name|] == name && field[|name|] == 0;
    CStringIs(field, name);
  }

  // ----- the table -----

  type Table = seq<DirEntry>

  /** The bytes of a directory file as slots. */
  ghost function Entries(c: seq<byte>): (t: Table)
    ensures |t| == |c| / 20
    ensures forall k :: 0 <= k < |t| ==> t[k] == c[20 * k..20 * k + 20]
  {
    seq(|c| / 20, k requires 0 <= k < |c| / 20 => c[20 * k..20 * k + 20])
  }

  /** Every slot in use has a proper name that no other slot in use has. */
  ghost predicate WellFormed(t: Table)
  {
    && (forall k :: 0 <= k < |t| && InUse(t[k]) ==> ValidName(NameOf(t[k])))
    && (forall j, k :: 0 <= j < |t| && 0 <= k < |t| && InUse(t[j]) && InUse(t[k]) && NameOf(t[j]) == NameOf(t[k]) ==> j == k)
  }

  /** The directory as a finite map. */
  ghost function Names(t: Table): map<seq<byte>, word>
    requires WellFormed(t)
  {
    map k | 0 <= k < |t| && InUse(t[k]) :: NameOf(t[k]) := SectorIn(t[k])
  }

  lemma NamesHas(t: Table, k: nat)
    requires WellFormed(t) && k < |t| && InUse(t[k])
    ensures NameOf(t[k]) in Names(t) && Names(t)[NameOf(t[k])] == SectorIn(t[k])
  {
    hide NameOf, SectorIn, InUse, ValidName;
  }

  lemma NamesFrom(t: Table, name: seq<byte>) returns (k: nat)
    requires WellFormed(t) && name in Names(t)
    ensures k < |t| && InUse(t[k]) && NameOf(t[k]) == name && Names(t)[name] == SectorIn(t[k])
  {
    hide NameOf, SectorIn, InUse, ValidName;
    k :| 0 <= k < |t| && InUse(t[k]) && NameOf(t[k]) == name;
    NamesHas(t, k);
  }

  /** Slot `k` rewritten, or added at the end. */
  function Put(t: Table, k: nat, e: DirEntry): Table
    requires k <= |t|
  {
    if k < |t| then t[k := e] else t + [e]
  }

  /** A 20-byte write at a slot boundary touches exactly one slot. */
  lemma SlotWrite(c: seq<byte>, k: nat, e: DirEntry)
    requires |c| % 20 == 0 && k <= |c| / 20
    ensures |Written(c, 20 * k, e)| % 20 == 0
    ensures Entries(Written(c, 20 * k, e)) == Put(Entries(c), k, e)
  {
    var d := Written(c, 20 * k, e);
    assert |c| == 20 * (|c| / 20);
    var x, y := Entries(d), Put(Entries(c), k, e);
    assert |x| == |y|;
    forall j | 0 <= j < |x| ensures x[j] == y[j] {
      assert x[j] == d[20 * j..20 * j + 20];
      if j != k {
        assert 20 * j + 20 <= 20 * k || 20 * k + 20 <= 20 * j;
        assert y[j] == c[20 * j..20 * j + 20];
      }
    }
  }

  /** A slot offset is far below 2^31. */
  lemma SlotInRange(fs: FileSystem, i: nat, k: nat)
    requires fs.Valid() && i in fs.open && i in fs.Contents() && 20 * k <= |fs.Contents()[i]|
    ensures !Wraps(20 * k, 20) && 20 * k < 0x8000_0000
    ensures |fs.Contents()[i]| == fs.open[i].data.length
  {
    hide Inv, Consistent, Coherent, Content, Files, DataOf;
    OpenInfo(fs.store.Vol(), fs.open, i);
    LengthBound(fs.store.Vol(), i, fs.open[i].data);
  }

  lemma WholeWrite(c: seq<byte>, offset: nat, data: seq<byte>)
    requires !Wraps(offset, |data|)
    ensures WrittenBy(c, offset, data) == Written(c, offset, data) && Stores(|c|, offset, |data|) == |data|
  {
    assert data[..|data|] == data;
  }

  /** Filling a free slot with an absent name adds exactly that name. */
  lemma AddedName(t: Table, k: nat, e: DirEntry)
    requires WellFormed(t) && k <= |t| && (k < |t| ==> !InUse(t[k]))
    requires InUse(e) && ValidName(NameOf(e)) && NameOf(e) !in Names(t)
    ensures WellFormed(Put(t, k, e)) && Names(Put(t, k, e)) == Names(t)[NameOf(e) := SectorIn(e)]
  {
    hide NameOf, SectorIn, InUse, ValidName, WellFormed;
    var u := Put(t, k, e);
    AddedFormed(t, k, e);
    var want := Names(t)[NameOf(e) := SectorIn(e)];
    forall n | n in Names(u) ensures n in want && want[n] == Names(u)[n] {
      var j := NamesFrom(u, n);
      if j != k { NamesHas(t, j); }
    }
    forall n | n in want ensures n in Names(u) {
      if n == NameOf(e) {
        NamesHas(u, k);
      } else {
        var j := NamesFrom(t, n);
        NamesHas(u, j);
      }
    }
  }

  lemma AddedFormed(t: Table, k: nat, e: DirEntry)
    requires WellFormed(t) && k <= |t| && (k < |t| ==> !InUse(t[k]))
    requires InUse(e) && ValidName(NameOf(e)) && NameOf(e) !in Names(t)
    ensures WellFormed(Put(t, k, e))
  {
    hide NameOf, SectorIn, InUse, ValidName;
    forall j | 0 <= j < |t| && InUse(t[j]) ensures NameOf(t[j]) != NameOf(e) { NamesHas(t, j); }
  }

  /** Clearing the flag of a slot in use removes exactly its name. */
  lemma RemovedName(t: Table, k: nat, e: DirEntry)
    requires WellFormed(t) && k < |t| && InUse(t[k]) && !InUse(e)
    ensures WellFormed(t[k := e]) && Names(t[k := e]) == Names(t) - {NameOf(t[k])}
  {
    hide NameOf, SectorIn, InUse, ValidName;
    var u := t[k := e];
    assert WellFormed(u);
    var want := Names(t) - {NameOf(t[k])};
    forall n | n in Names(u) ensures n in want && want[n] == Names(u)[n] {
      var j := NamesFrom(u, n);
      NamesHas(t, j);
    }
    forall n | n in want ensures n in Names(u) {
      var j := NamesFrom(t, n);
      NamesHas(u, j);
    }
  }

  // ----- listing -----

  /** The names in use, in slot order. */
  ghost function Listing(t: Table): seq<seq<byte>>
  {
    if t == [] then []
    else Listing(t[..|t| - 1]) + (if InUse(t[|t| - 1]) then [NameOf(t[|t| - 1])] else [])
  }

  /** Every name of the directory is listed, and listed once. */
  lemma {:induction false} ListingComplete(t: Table)
    requires WellFormed(t)
    ensures forall n :: n in Listing(t) <==> n in Names(t)
    ensures |Listing(t)| == |Names(t)|
  {
    hide NameOf, InUse, ValidName, SectorIn, Names, WellFormed;
    if t != [] {
      var last := |t| - 1;
      LastSlot(t);
      ListingComplete(t[..last]);
    } else {
      NamesEmpty();
    }
  }

  lemma NamesEmpty()
    ensures WellFormed([]) && Names([]) == map[]
  {
  }

  lemma LastSlot(t: Table)
    requires WellFormed(t) && t != []
    ensures var init, e := t[..|t| - 1], t[|t| - 1];
            && WellFormed(init)
            && (!InUse(e) ==> Names(t) == Names(init))
            && (InUse(e) ==> NameOf(e) !in Names(init) && Names(t) == Names(init)[NameOf(e) := SectorIn(e)])
  {
    hide NameOf, InUse, ValidName, SectorIn;
    var init, e := t[..|t| - 1], t[|t| - 1];
    assert t == init + [e];
    assert forall j :: 0 <= j < |init| ==> init[j] == t[j];
    if InUse(e) {
      if NameOf(e) in Names(init) {
        var j := NamesFrom(init, NameOf(e));
        assert false;
      }
      AddedName(init, |init|, e);
    } else {
      assert forall k :: 0 <= k < |t| && InUse(t[k]) ==> k < |init| && init[k] == t[k];
    }
  }

  lemma ListingStep(t: Table, k: nat)
    requires k < |t|
    ensures Listing(t[..k + 1]) == Listing(t[..k]) + if InUse(t[k]) then [NameOf(t[k])] else []
  {
    assert t[..k + 1][..k] == t[..k];
  }

  datatype AddResult = Added | Refused | Corrupts

  /** Appending a slot never leaves the domain of `file_growth`; only a full volume can defeat it. */
  lemma AppendSlotWorks(o: OpenInode, free: nat, k: nat)
    requires o.data.length == 20 * k && 20 * k + 20 < MAX_BLOCKS * 512
    ensures WriteWorks(o, free, 20 * k, 20) <==> o.denyWriteCnt > 0 || free >= Needed(20 * k, 20 * k, 20)
  {
    AppendInDomain(20 * k, 20);
  }

  /** Position of the first free slot, or the end of the table. */
  ghost function FreeSlot(t: Table): (k: nat)
    ensures k <= |t| && (k < |t| ==> !InUse(t[k])) && forall j :: 0 <= j < k ==> InUse(t[j])
  {
    if t == [] || !InUse(t[0]) then 0 else 1 + FreeSlot(t[1..])
  }

  lemma {:induction false} FreeSlotIs(t: Table, k: nat)
    requires k <= |t| && (k < |t| ==> !InUse(t[k])) && forall j :: 0 <= j < k ==> InUse(t[j])
    ensures FreeSlot(t) == k
  {
    hide InUse;
  }

  /** An open directory: the inode it is stored in and the position of `dir_readdir`. */
  class Dir {
    const fs: FileSystem
    const inode: nat
    var pos: nat

    ghost predicate Valid()
      reads this, fs, fs.store, fs.store.cache, fs.store.freeMap
    {
      && fs.Valid() && inode in fs.open && inode in fs.Contents()
      && |fs.Contents()[inode]| % 20 == 0 && WellFormed(Entries(fs.Contents()[inode])) && pos % 20 == 0
    }

    ghost function Slots(): Table
      requires Valid()
      reads this, fs, fs.store, fs.store.cache, fs.store.freeMap
    {
      Entries(fs.Contents()[inode])
    }

    constructor (fs: FileSystem, inode: nat)
      requires fs.Valid() && inode in fs.open && inode in fs.Contents()
      requires |fs.Contents()[inode]| % 20 == 0 && WellFormed(Entries(fs.Contents()[inode]))
      ensures Valid() && this.fs == fs && this.inode == inode && pos == 0
    {
      this.fs, this.inode, this.pos := fs, inode, 0;
    }

    /** `inode_read_at (dir->inode, &e, sizeof e, 20 * k)`: slot `k`, or a short read at the end. */
    method ReadSlot(k: nat) returns (full: bool, e: DirEntry)
      requires Valid()
      modifies fs.store.cache
      ensures Valid() && fs.Contents() == old(fs.Contents()) && fs.store.Vol() == old(fs.store.Vol())
      ensures full <==> k < |Slots()|
      ensures full ==> e == Slots()[k]
    {
      hide WellFormed, Inv, Consistent, Coherent, Files;
      e := Zeros(20);
      var buffer := fs.ReadAt(inode, 20, 20 * k);
      full := |buffer| == 20;
      if full { e := buffer; }
    }

    /** The slot that holds `name`, if any. */
    method Lookup(name: seq<byte>) returns (found: bool, e: DirEntry, k: nat)
      requires Valid() && 0 !in name
      modifies fs.store.cache
      ensures Valid() && fs.Contents() == old(fs.Contents()) && fs.store.Vol() == old(fs.store.Vol())
      ensures found <==> name in Names(Slots())
      ensures found ==> k < |Slots()| && e == Slots()[k] && InUse(e) && NameOf(e) == name && Names(Slots())[name] == SectorIn(e)
    {
      hide WellFormed, Inv, Consistent, Coherent, Files, Names, NameOf, InUse, SectorIn, Entries;
      ghost var t := Slots();
      k := 0;
      found, e := ReadSlot(k);
      while found
        invariant Valid() && fs.Contents() == old(fs.Contents()) && fs.store.Vol() == old(fs.store.Vol())
        invariant 0 <= k <= |t| && (found <==> k < |t|) && (found ==> e == t[k])
        invariant forall j :: 0 <= j < k && InUse(t[j]) ==> NameOf(t[j]) != name
        decreases |t| - k
      {
        if InUse(e) && NameOf(e) == name {
          NamesHas(t, k);
          return;
        }
        k := k + 1;
        found, e := ReadSlot(k);
      }
      if name in Names(t) { var j := NamesFrom(t, name); }
    }

    /** No slot is in use. */
    method IsEmpty() returns (empty: bool)
      requires Valid()
      modifies fs.store.cache
      ensures Valid() && fs.Contents() == old(fs.Contents()) && fs.store.Vol() == old(fs.store.Vol())
      ensures empty <==> Names(Slots()) == map[]
    {
      hide WellFormed, Inv, Consistent, Coherent, Files, Names, NameOf, InUse, SectorIn, Entries;
      ghost var t := Slots();
      var k := 0;
      var full, e := ReadSlot(k);
      while full
        invariant Valid() && fs.Contents() == old(fs.Contents()) && fs.store.Vol() == old(fs.store.Vol())
        invariant 0 <= k <= |t| && (full <==> k < |t|) && (full ==> e == t[k])
        invariant forall j :: 0 <= j < k ==> !InUse(t[j])
        decreases |t| - k
      {
        if InUse(e) {
          NamesHas(t, k);
          return false;
        }
        k := k + 1;
        full, e := ReadSlot(k);
      }
      empty := true;
      if n :| n in Names(t) { var j := NamesFrom(t, n); }
    }

    /** The scan of `dir_add` for a free slot; `stale` is what is left in the entry buffer. */
    method FindFree(uninitialised: DirEntry) returns (k: nat, stale: DirEntry)
      requires Valid()
      modifies fs.store.cache
      ensures Valid() && fs.Contents() == old(fs.Contents()) && fs.store.Vol() == old(fs.store.Vol())
      ensures k == FreeSlot(Slots())
    {
      hide WellFormed, Inv, Consistent, Coherent, Files, NameOf, InUse, Entries, FreeSlot;
      ghost var t := Slots();
      k, stale := 0, uninitialised;
      var full, e := ReadSlot(k);
      while full && InUse(e)
        invariant Valid() && fs.Contents() == old(fs.Contents()) && fs.store.Vol() == old(fs.store.Vol())
        invariant 0 <= k <= |t| && (full <==> k < |t|) && (full ==> e == t[k])
        invariant forall j :: 0 <= j < k ==> InUse(t[j])
        decreases |t| - k
      {
        stale := e;
        k := k + 1;
        full, e := ReadSlot(k);
      }
      if full { stale := e; }
      FreeSlotIs(t, k);
    }

    /** `inode_write_at (dir->inode, &e, sizeof e, 20 * k)`. */
    method WriteSlot(k: nat, e: DirEntry) returns (r: WriteResult)
      requires Valid() && k <= |Slots()| && (WellFormed(Put(Slots(), k, e)))
      modifies fs, fs.store, fs.store.cache, fs.store.freeMap
      ensures r.Wrote? <==> WriteWorks(old(fs.open)[inode], FreeCount(old(fs.store.freeMap.bits)), 20 * k, 20)
      ensures r.Wrote? ==> Valid() && r.count == if old(fs.open)[inode].denyWriteCnt > 0 then 0 else 20
      ensures r.Wrote? ==> fs.Contents().Keys == old(fs.Contents()).Keys
      ensures r.Wrote? ==> forall i :: i in fs.Contents() && i != inode ==> fs.Contents()[i] == old(fs.Contents())[i]
      ensures r.Wrote? ==> Slots() == if r.count == 0 then old(Slots()) else Put(old(Slots()), k, e)
    {
      hide WellFormed, Inv, Consistent, Coherent, Files, NameOf, InUse, Entries, FreeSlot, Written, WrittenBy, Stores, WriteWorks, SectorsTaken, Wraps;
      ghost var c := fs.Contents()[inode];
      SlotWrite(c, k, e);
      SlotInRange(fs, inode, k);
      WholeWrite(c, 20 * k, e);
      r := fs.WriteAt(inode, e, 20 * k);
    }

    /**
     Adds `name`. It is refused exactly when it is not a name of 1 to 14
     characters, is present, or the inode denies writes.
     */
    method Add(name: seq<byte>, sector: word, uninitialised: DirEntry) returns (r: AddResult)
      requires Valid() && 0 !in name
      modifies fs, fs.store, fs.store.cache, fs.store.freeMap
      ensures var accepted := 1 <= |name| <= 14 && name !in old(Names(Slots()));
              var works := WriteWorks(old(fs.open)[inode], FreeCount(old(fs.store.freeMap.bits)), 20 * old(FreeSlot(Slots())), 20);
              && (r.Added? <==> accepted && works && old(fs.open)[inode].denyWriteCnt == 0)
              && (r.Corrupts? <==> accepted && !works)
      ensures !r.Corrupts? ==> Valid()
      ensures r.Added? ==> Names(Slots()) == old(Names(Slots()))[name := sector]
      ensures r.Refused? ==> Slots() == old(Slots())
      ensures !r.Corrupts? ==> fs.Contents().Keys == old(fs.Contents()).Keys
      ensures !r.Corrupts? ==> forall i :: i in fs.Contents() && i != inode ==> fs.Contents()[i] == old(fs.Contents())[i]
    {
      hide WellFormed, Inv, Consistent, Coherent, Files, NameOf, InUse, SectorIn, Entries, FreeSlot, WriteWorks, Names, MakeEntry;
      if name == [] || |name| > NAME_MAX { return Refused; }
      var found, e, at := Lookup(name);
      if found { return Refused; }
      var k, stale := FindFree(uninitialised);
      EntryRoundTrip(stale, name, sector);
      AddedName(Slots(), k, MakeEntry(stale, name, sector));
      var w := WriteSlot(k, MakeEntry(stale, name, sector));
      match w
      case Corrupts => r := AddResult.Corrupts;
      case Wrote(n) => r := if n == 20 then Added else Refused;
    }

    /**
     Removes the entry of a plain file. The write stays inside the file, so it
     needs no growth and cannot corrupt anything.
     */
    method Remove(name: seq<byte>) returns (ok: bool)
      requires Valid() && 0 !in name
      modifies fs, fs.store, fs.store.cache, fs.store.freeMap
      ensures Valid()
      ensures ok <==> name in old(Names(Slots())) && old(fs.open)[inode].denyWriteCnt == 0
      ensures Names(Slots()) == if ok then old(Names(Slots())) - {name} else old(Names(Slots()))
      ensures fs.Contents().Keys == old(fs.Contents()).Keys
      ensures forall i :: i in fs.Contents() && i != inode ==> fs.Contents()[i] == old(fs.Contents())[i]
    {
      hide WellFormed, Inv, Consistent, Coherent, Files, NameOf, SectorIn, FreeSlot, Names, GrowthDomain, Needed;
      var found, e, k := Lookup(name);
      if !found { return false; }
      RemovedName(Slots(), k, e[19 := 0]);
      assert 20 * k + 20 <= fs.open[inode].data.length by { OpenInfo(fs.store.Vol(), fs.open, inode); }
      var w := WriteSlot(k, e[19 := 0]);
      ok := w.count == 20;
    }

    /** The next name in use at or after `pos`, which moves past it. */
    method Readdir() returns (found: bool, name: seq<byte>)
      requires Valid() && pos / 20 <= |Slots()|
      modifies this, fs.store.cache
      ensures Valid() && fs.Contents() == old(fs.Contents()) && pos / 20 <= |Slots()|
      ensures Listing(Slots()[..pos / 20]) == Listing(Slots()[..old(pos) / 20]) + if found then [name] else []
      ensures !found ==> pos / 20 == |Slots()|
      ensures old(pos) <= pos && (found ==> old(pos) < pos)
    {
      hide WellFormed, Inv, Consistent, Coherent, Files, NameOf, InUse, Entries, Listing;
      ghost var t := Slots();
      name := [];
      var full, e := ReadSlot(pos / 20);
      while full
        invariant Valid() && fs.Contents() == old(fs.Contents()) && old(pos) <= pos
        invariant pos / 20 <= |t| && (full <==> pos / 20 < |t|) && (full ==> e == t[pos / 20])
        invariant Listing(t[..pos / 20]) == Listing(t[..old(pos) / 20])
        decreases |t| - pos / 20
      {
        ListingStep(t, pos / 20);
        assert (pos + 20) / 20 == pos / 20 + 1;
        pos := pos + 20;
        if InUse(e) {
          return true, NameOf(e);
        }
        full, e := ReadSlot(pos / 20);
      }
      found := false;
    }

    /** Repeated `dir_readdir` from position 0 yields each name of the directory exactly once. */
    method ReadAll() returns (names: seq<seq<byte>>)
      requires Valid() && pos == 0
      modifies this, fs.store.cache
      ensures Valid() && fs.Contents() == old(fs.Contents())
      ensures (forall n :: n in names <==> n in Names(Slots())) && |names| == |Names(Slots())|
    {
      hide WellFormed, Inv, Consistent, Coherent, Files, NameOf, InUse, Entries, Names;
      ghost var t := Slots();
      names := [];
      var found, name := Readdir();
      while found
        invariant Valid() && fs.Contents() == old(fs.Contents()) && pos / 20 <= |t|
        invariant Listing(t[..pos / 20]) == names + if found then [name] else []
        invariant !found ==> pos / 20 == |t|
        decreases |t| * 20 + 20 - pos, found
      {
        names := names + [name];
        found, name := Readdir();
      }
      assert t[..|t|] == t;
      ListingComplete(t);
    }
  }
}
