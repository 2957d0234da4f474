/**
 The on-disk index tree as a mathematical object. Every sector an inode uses
 plays exactly one role in the volume; `Loc` follows the stored pointers from
 the inode to the sector that plays a role, and `Inv` says that the sectors of
 all roles of all inodes are marked in the free map and pairwise distinct.
 */
module IndexTree {
  import opened Bytes

  const MAX_BLOCKS: nat := 16513  // 1 direct + 128 indirect + 128 * 128 doubly indirect

  /**
   The pointers held by an inode and how much of the tree below them is in use.
   While a file grows the counters run ahead of its length one sector at a time.
   */
  datatype Node = Node(sp: nat, ind: nat, din: nat, blocks: nat, hasInd: bool, hasDin: bool, seconds: nat)

  datatype Role =
    | Header(i: nat)          // the sector of the inode itself
    | Data(i: nat, b: nat)    // the b-th block of the file
    | Ind(i: nat)             // the index block behind `ind`
    | Din(i: nat)             // the index block behind `din`
    | Second(i: nat, k: nat)  // the k-th index block below `din`

  datatype Volume = Volume(view: seq<Block>, marked: seq<bool>, nodes: map<nat, Node>)

  /** Word `k` of sector `s` read as a `struct index`. */
  function Slot(view: seq<Block>, s: nat, k: nat): word
  {
    if s < |view| && k < 128 then Le32(view[s], 4 * k) else 0
  }

  function SetSlot(b: Block, k: nat, v: word): Block
    requires k < 128
  {
    Patch(b, 4 * k, ToLe32(v))
  }

  lemma SetSlotReads(view: seq<Block>, s: nat, k: nat, v: word)
    requires s < |view| && k < 128
    ensures Slot(view[s := SetSlot(view[s], k, v)], s, k) == v
    ensures forall j :: j != k ==> Slot(view[s := SetSlot(view[s], k, v)], s, j) == Slot(view, s, j)
  {
    var b := SetSlot(view[s], k, v);
    assert b[4 * k..4 * k + 4] == ToLe32(v);
    Le32At(b, 4 * k, v);
    forall j: nat | j != k && j < 128 ensures Le32(b, 4 * j) == Le32(view[s], 4 * j) {
      Le32Same(b, view[s], 4 * j);
    }
  }

  // ----- the tree -----

  datatype Parent = Root | Under(role: Role, slot: nat)

  /** Which index block, and which slot of it, points at a role. */
  function ParentOf(q: Role): Parent
  {
    match q
    case Data(i, b) =>
      if b == 0 then Root
      else if b < 129 then Under(Ind(i), b - 1)
      else Under(Second(i, (b - 129) / 128), (b - 129) % 128)
    case Second(i, k) => Under(Din(i), k)
    case _ => Root
  }

  function Rank(q: Role): nat
  {
    match q case Data(_, _) => 2 case Second(_, _) => 1 case _ => 0
  }

  /** The sector that plays role `q`, found by following stored pointers. */
  function Loc(v: Volume, q: Role): nat
    decreases Rank(q)
  {
    match ParentOf(q)
    case Under(p, k) => Slot(v.view, Loc(v, p), k)
    case Root =>
      if q.i !in v.nodes then 0 else
      match q
      case Header(i) => i
      case Ind(i) => v.nodes[i].ind
      case Din(i) => v.nodes[i].din
      case _ => v.nodes[q.i].sp
  }

  predicate Live(v: Volume, q: Role)
  {
    && q.i in v.nodes
    && match q
       case Header(i) => true
       case Data(i, b) => b < v.nodes[i].blocks
       case Ind(i) => v.nodes[i].hasInd
       case Din(i) => v.nodes[i].hasDin
       case Second(i, k) => k < v.nodes[i].seconds
  }

  predicate Shaped(n: Node)
  {
    && n.blocks <= MAX_BLOCKS && n.seconds <= 128
    && (n.blocks > 1 ==> n.hasInd)
    && (n.blocks > 129 ==> n.hasDin && n.blocks <= 129 + 128 * n.seconds)
    && (n.seconds > 0 ==> n.hasDin)
  }

  /** Every sector in use is marked in the free map. */
  ghost predicate AllMarked(v: Volume)
  {
    forall q :: Live(v, q) ==> Loc(v, q) < |v.view| && Loc(v, q) < |v.marked| && v.marked[Loc(v, q)]
  }

  /** No sector plays two roles. */
  ghost predicate Separate(v: Volume)
  {
    forall q, r :: Live(v, q) && Live(v, r) && Loc(v, q) == Loc(v, r) ==> q == r
  }

  ghost predicate Inv(v: Volume)
  {
    && |v.marked| == |v.view| <= 0x1_0000_0000
    && (forall i :: i in v.nodes ==> Shaped(v.nodes[i]))
    && AllMarked(v)
    && Separate(v)
  }

  /** An index block that leads to a live sector is live itself. */
  lemma ParentLive(v: Volume, q: Role)
    requires Inv(v) && Live(v, q) && ParentOf(q).Under?
    ensures Live(v, ParentOf(q).role) && ParentOf(q).slot < 128
    ensures Loc(v, q) == Slot(v.view, Loc(v, ParentOf(q).role), ParentOf(q).slot)
  {
    assert Shaped(v.nodes[q.i]);
  }

  // ----- contents -----

  function Stored(v: Volume, q: Role): Block
  {
    if Loc(v, q) < |v.view| then v.view[Loc(v, q)] else ZERO_BLOCK
  }

  /** The blocks of file `i`, in order. */
  ghost function Blocks(v: Volume, i: nat): (bs: seq<Block>)
    requires i in v.nodes
    ensures |bs| == v.nodes[i].blocks
  {
    seq(v.nodes[i].blocks, (b: nat) => Stored(v, Data(i, b)))
  }

  /** Between `v` and `w` only file `i` changed, and no inode sector was written. */
  ghost predicate OnlyFile(v: Volume, w: Volume, i: nat)
  {
    && w.nodes.Keys == v.nodes.Keys && |w.view| == |v.view|
    && (forall j :: j in v.nodes && j != i ==> w.nodes[j] == v.nodes[j] && Blocks(w, j) == Blocks(v, j))
    && (forall j :: j in v.nodes ==> Stored(w, Header(j)) == Stored(v, Header(j)))
  }

  /** Live roles keep their sectors, and the sectors that hold data keep their contents. */
  ghost predicate Keeps(v: Volume, w: Volume)
  {
    && (forall q :: Live(v, q) ==> Loc(w, q) == Loc(v, q))
    && (forall q :: Live(v, q) && (q.Data? || q.Header?) ==> Stored(w, q) == Stored(v, q))
  }

  lemma KeepsMeansOnlyFile(v: Volume, w: Volume, i: nat)
    requires Keeps(v, w) && w.nodes.Keys == v.nodes.Keys && |w.view| == |v.view|
    requires forall j :: j in v.nodes && j != i ==> w.nodes[j] == v.nodes[j]
    ensures OnlyFile(v, w, i)
    ensures i in v.nodes && w.nodes[i].blocks >= v.nodes[i].blocks
            ==> Blocks(w, i)[..v.nodes[i].blocks] == Blocks(v, i)
  {
    forall j | j in v.nodes && j != i ensures Blocks(w, j) == Blocks(v, j) {
      forall b: nat | b < v.nodes[j].blocks ensures Stored(w, Data(j, b)) == Stored(v, Data(j, b)) {
        assert Live(v, Data(j, b));
      }
    }
    forall j | j in v.nodes ensures Stored(w, Header(j)) == Stored(v, Header(j)) {
      assert Live(v, Header(j));
    }
    if i in v.nodes && w.nodes[i].blocks >= v.nodes[i].blocks {
      forall b: nat | b < v.nodes[i].blocks ensures Stored(w, Data(i, b)) == Stored(v, Data(i, b)) {
        assert Live(v, Data(i, b));
      }
    }
  }

  lemma OnlyFileTransitive(u: Volume, v: Volume, w: Volume, i: nat)
    requires OnlyFile(u, v, i) && OnlyFile(v, w, i)
    ensures OnlyFile(u, w, i)
  {
  }

  // ----- what one write to a sector does to the tree -----

  /** A write to a sector that is no index block moves nothing. */
  lemma DataWrite(v: Volume, q: Role, blk: Block)
    requires Inv(v) && Live(v, q) && (q.Data? || q.Header?)
    ensures var w := v.(view := v.view[Loc(v, q) := blk]);
            && Inv(w)
            && (forall r :: Live(v, r) ==> Loc(w, r) == Loc(v, r))
            && (forall r :: Live(v, r) ==> Stored(w, r) == if r == q then blk else Stored(v, r))
  {
    var w := v.(view := v.view[Loc(v, q) := blk]);
    forall r | Live(v, r) ensures Loc(w, r) == Loc(v, r) { DataWriteAt(v, q, blk, r); }
    assert forall r :: Live(w, r) <==> Live(v, r);
  }

  lemma {:induction false} DataWriteAt(v: Volume, q: Role, blk: Block, r: Role)
    requires Inv(v) && Live(v, q) && (q.Data? || q.Header?) && Live(v, r)
    ensures Loc(v.(view := v.view[Loc(v, q) := blk]), r) == Loc(v, r)
    decreases Rank(r)
  {
    if ParentOf(r).Under? {
      ParentLive(v, r);
      DataWriteAt(v, q, blk, ParentOf(r).role);
    }
  }

  /** Storing pointer `f` in slot `k` of index block `p` moves only the role below that slot. */
  lemma {:induction false} SlotWriteAt(v: Volume, w: Volume, p: Role, k: nat, f: word, r: Role)
    requires Inv(v) && Live(v, p) && !p.Data? && !p.Header? && k < 128 && Live(v, r)
    requires w.view == v.view[Loc(v, p) := SetSlot(v.view[Loc(v, p)], k, f)]
    requires w.nodes.Keys == v.nodes.Keys
    requires forall i :: i in v.nodes ==>
               w.nodes[i].sp == v.nodes[i].sp && w.nodes[i].ind == v.nodes[i].ind && w.nodes[i].din == v.nodes[i].din
    requires ParentOf(r) != Under(p, k)
    requires forall s :: ParentOf(s) == Under(p, k) ==> !Live(v, s)
    ensures Loc(w, r) == Loc(v, r)
    decreases Rank(r)
  {
    if ParentOf(r).Under? {
      ParentLive(v, r);
      var up := ParentOf(r).role;
      SlotWriteAt(v, w, p, k, f, up);
      SetSlotReads(v.view, Loc(v, p), k, f);
    }
  }

  // ----- bringing one more sector into the tree -----

  /** Role `r` becomes live in a sector `f` that was free, and nothing else moves. */
  ghost predicate Extends(v: Volume, w: Volume, r: Role, f: nat)
  {
    && f < |v.view| && |v.marked| == |v.view| == |w.view| && !v.marked[f] && w.marked == v.marked[f := true]
    && w.nodes.Keys == v.nodes.Keys
    && (forall i :: i in w.nodes ==> Shaped(w.nodes[i]))
    && (forall q :: Live(w, q) ==> q == r || Live(v, q))
    && Loc(w, r) == f
    && Keeps(v, w)
  }

  lemma ExtendsInv(v: Volume, w: Volume, r: Role, f: nat)
    requires Inv(v) && Extends(v, w, r, f)
    ensures Inv(w)
  {
    forall q | Live(w, q)
      ensures q != r ==> Loc(w, q) == Loc(v, q) && Loc(v, q) != f
      ensures Loc(w, q) < |w.view| && w.marked[Loc(w, q)]
    {
      if q != r { assert Live(v, q); }
    }
  }

  function Mark(v: Volume, f: nat): seq<bool>
  {
    if f < |v.marked| then v.marked[f := true] else v.marked
  }

  /** `free_map_allocate (1, &inode->data.sp)` for an empty file. */
  function WithSp(v: Volume, i: nat, f: nat): Volume
    requires i in v.nodes
  {
    v.(marked := Mark(v, f), nodes := v.nodes[i := v.nodes[i].(sp := f, blocks := 1)])
  }

  function WithInd(v: Volume, i: nat, f: nat): Volume
    requires i in v.nodes
  {
    v.(marked := Mark(v, f), nodes := v.nodes[i := v.nodes[i].(ind := f, hasInd := true)])
  }

  function WithDin(v: Volume, i: nat, f: nat): Volume
    requires i in v.nodes
  {
    v.(marked := Mark(v, f), nodes := v.nodes[i := v.nodes[i].(din := f, hasDin := true)])
  }

  predicate Fresh(v: Volume, f: nat)
  {
    f < |v.view| && f < |v.marked| && !v.marked[f]
  }

  lemma {:induction false} AddSp(v: Volume, i: nat, f: nat)
    requires Inv(v) && i in v.nodes && v.nodes[i].blocks == 0 && Fresh(v, f)
    ensures Extends(v, WithSp(v, i, f), Data(i, 0), f) && Inv(WithSp(v, i, f))
  {
    var w := WithSp(v, i, f);
    forall q | Live(v, q) ensures Loc(w, q) == Loc(v, q) { RootChange(v, w, i, q); }
    ExtendsInv(v, w, Data(i, 0), f);
  }

  lemma {:induction false} AddInd(v: Volume, i: nat, f: nat)
    requires Inv(v) && i in v.nodes && !v.nodes[i].hasInd && Fresh(v, f)
    ensures Extends(v, WithInd(v, i, f), Ind(i), f) && Inv(WithInd(v, i, f))
  {
    var w := WithInd(v, i, f);
    assert Shaped(v.nodes[i]);
    forall q | Live(v, q) ensures Loc(w, q) == Loc(v, q) { RootChange(v, w, i, q); }
    ExtendsInv(v, w, Ind(i), f);
  }

  lemma {:induction false} AddDin(v: Volume, i: nat, f: nat)
    requires Inv(v) && i in v.nodes && !v.nodes[i].hasDin && Fresh(v, f)
    ensures Extends(v, WithDin(v, i, f), Din(i), f) && Inv(WithDin(v, i, f))
  {
    var w := WithDin(v, i, f);
    assert Shaped(v.nodes[i]);
    forall q | Live(v, q) ensures Loc(w, q) == Loc(v, q) { RootChange(v, w, i, q); }
    ExtendsInv(v, w, Din(i), f);
  }

  /** Replacing a pointer of inode `i` that nothing live hangs from. */
  lemma {:induction false} RootChange(v: Volume, w: Volume, i: nat, q: Role)
    requires Inv(v) && i in v.nodes && w.view == v.view && i in w.nodes && w.nodes == v.nodes[i := w.nodes[i]]
    requires v.nodes[i].blocks > 0 ==> w.nodes[i].sp == v.nodes[i].sp
    requires v.nodes[i].hasInd ==> w.nodes[i].ind == v.nodes[i].ind
    requires v.nodes[i].hasDin ==> w.nodes[i].din == v.nodes[i].din
    requires Live(v, q)
    ensures Loc(w, q) == Loc(v, q)
    decreases Rank(q)
  {
    if ParentOf(q).Under? {
      ParentLive(v, q);
      RootChange(v, w, i, ParentOf(q).role);
    }
  }

  /** The next role to be filled in below an index block. */
  predicate NextBelow(n: Node, i: nat, r: Role)
  {
    match r
    case Data(j, b) => j == i && b == n.blocks && 1 <= b < MAX_BLOCKS && (b < 129 ==> n.hasInd) && (b >= 129 ==> (b - 129) / 128 < n.seconds)
    case Second(j, k) => j == i && k == n.seconds < 128 && n.hasDin
    case _ => false
  }

  function Count(n: Node, r: Role): Node
  {
    match r
    case Data(_, b) => n.(blocks := b + 1)
    case Second(_, k) => n.(seconds := k + 1)
    case _ => n
  }

  /** `free_map_allocate (1, &index->block[k])` and the copy of the index block back. */
  function WithSlot(v: Volume, i: nat, r: Role, f: word): Volume
    requires i in v.nodes && ParentOf(r).Under? && ParentOf(r).slot < 128
  {
    var at := Loc(v, ParentOf(r).role);
    v.(view := if at < |v.view| then v.view[at := SetSlot(v.view[at], ParentOf(r).slot, f)] else v.view,
       marked := Mark(v, f),
       nodes := v.nodes[i := Count(v.nodes[i], r)])
  }

  lemma {:induction false} AddSlot(v: Volume, i: nat, r: Role, f: word)
    requires Inv(v) && i in v.nodes && NextBelow(v.nodes[i], i, r) && Fresh(v, f)
    ensures Live(v, ParentOf(r).role) && Loc(v, ParentOf(r).role) < |v.view|
    ensures Extends(v, WithSlot(v, i, r, f), r, f) && Inv(WithSlot(v, i, r, f))
  {
    assert Shaped(v.nodes[i]);
    assert Live(v, ParentOf(r).role) && ParentOf(r).slot < 128;
    var w := WithSlot(v, i, r, f);
    SlotKeeps(v, i, r, f);
    CountShaped(v.nodes[i], i, r);
    forall j | j in w.nodes ensures Shaped(w.nodes[j]) { assert Shaped(v.nodes[j]); }
    ExtendsInv(v, w, r, f);
  }

  lemma CountShaped(n: Node, i: nat, r: Role)
    requires Shaped(n) && NextBelow(n, i, r)
    ensures Shaped(Count(n, r))
  {
  }

  lemma {:induction false} SlotKeeps(v: Volume, i: nat, r: Role, f: word)
    requires Inv(v) && i in v.nodes && NextBelow(v.nodes[i], i, r)
    requires Live(v, ParentOf(r).role) && ParentOf(r).slot < 128
    ensures Keeps(v, WithSlot(v, i, r, f)) && Loc(WithSlot(v, i, r, f), r) == f
  {
    var p, k := ParentOf(r).role, ParentOf(r).slot;
    var w := WithSlot(v, i, r, f);
    forall s | ParentOf(s) == Under(p, k) ensures !Live(v, s) { OneParent(r, s); }
    forall q | Live(v, q) ensures Loc(w, q) == Loc(v, q) { SlotWriteAt(v, w, p, k, f, q); }
    SetSlotReads(v.view, Loc(v, p), k, f);
  }

  lemma OneParent(r: Role, s: Role)
    requires ParentOf(r).Under? && ParentOf(r) == ParentOf(s)
    ensures r == s
  {
  }

  // ----- the shape a length calls for -----

  function BytesToSectors(size: nat): nat
  {
    (size + 511) / 512
  }

  function SecondsFor(blocks: nat): nat
  {
    if blocks <= 129 then 0 else (blocks - 129 + 127) / 128
  }

  function NodeFor(sp: nat, ind: nat, din: nat, length: nat): Node
  {
    var n := BytesToSectors(length);
    Node(sp, ind, din, n, n > 1, n > 129, SecondsFor(n))
  }

  /** Sectors above the need of the final length are forgotten; they stay marked. */
  lemma {:induction false} Trim(v: Volume, i: nat, n: Node)
    requires Inv(v) && i in v.nodes && Shaped(n)
    requires var m := v.nodes[i];
             n == m.(blocks := n.blocks, hasInd := n.hasInd, hasDin := n.hasDin, seconds := n.seconds) &&
             n.blocks <= m.blocks && n.seconds <= m.seconds && (n.hasInd ==> m.hasInd) && (n.hasDin ==> m.hasDin)
    ensures var w := v.(nodes := v.nodes[i := n]);
            Inv(w) && OnlyFile(v, w, i) && Blocks(w, i) == Blocks(v, i)[..n.blocks]
  {
    var w := v.(nodes := v.nodes[i := n]);
    forall q ensures Loc(w, q) == Loc(v, q) && (Live(w, q) ==> Live(v, q)) { TrimAt(v, i, n, q); }
    assert AllMarked(w) && Separate(w);
    forall j | j in v.nodes && j != i ensures Blocks(w, j) == Blocks(v, j) {
      assert forall b: nat :: Stored(w, Data(j, b)) == Stored(v, Data(j, b));
    }
    assert forall b: nat :: Stored(w, Data(i, b)) == Stored(v, Data(i, b));
  }

  lemma {:induction false} TrimAt(v: Volume, i: nat, n: Node, q: Role)
    requires i in v.nodes && n.sp == v.nodes[i].sp && n.ind == v.nodes[i].ind && n.din == v.nodes[i].din
    ensures Loc(v.(nodes := v.nodes[i := n]), q) == Loc(v, q)
    decreases Rank(q)
  {
    if ParentOf(q).Under? {
      TrimAt(v, i, n, ParentOf(q).role);
    }
  }

  // ----- blocks as bytes -----

  /** The bytes of a sequence of blocks. */
  ghost function Flat(bs: seq<Block>): (r: seq<byte>)
    ensures |r| == 512 * |bs|
    ensures forall k :: 0 <= k < |r| ==> r[k] == bs[k / 512][k % 512]
  {
    seq(512 * |bs|, k requires 0 <= k < 512 * |bs| => bs[k / 512][k % 512])
  }

  lemma FlatAppend(bs: seq<Block>, b: Block)
    ensures Flat(bs + [b]) == Flat(bs) + b
  {
  }

  lemma FlatPatch(bs: seq<Block>, j: nat, ofs: nat, data: seq<byte>)
    requires j < |bs| && ofs + |data| <= 512
    ensures Flat(bs[j := Patch(bs[j], ofs, data)]) == Patch(Flat(bs), 512 * j + ofs, data)
  {
    var l, r := Flat(bs[j := Patch(bs[j], ofs, data)]), Patch(Flat(bs), 512 * j + ofs, data);
    forall k | 0 <= k < |l| ensures l[k] == r[k] {
      if k / 512 == j {
        assert k == 512 * j + k % 512;
      } else {
        assert !(512 * j + ofs <= k < 512 * j + ofs + |data|);
      }
    }
  }

  lemma FlatTake(bs: seq<Block>, n: nat)
    requires n <= |bs|
    ensures Flat(bs[..n]) == Flat(bs)[..512 * n]
  {
  }
}
