/**
 Whole runs of the file layer. Every run of creates, opens, closes, writes and
 reads on the index tree gives the answers of a simple machine whose files are
 byte strings and whose free map is a number.
 */
module FileRuns {
  import opened Bytes
  import opened IndexTree
  import opened FreeMap
  import opened BufferCache
  import opened BlockStore
  import opened Inode

  /** Operations name a file by its place in the order of creation. */
  datatype FileOp =
    | DoCreate(length: nat)
    | DoOpen(file: nat)
    | DoClose(file: nat)
    | DoWrite(file: nat, data: seq<byte>, offset: nat)
    | DoRead(file: nat, size: int, offset: nat)

  datatype Outcome =
    | Created
    | Got(bytes: seq<byte>)
    | Put(count: nat)
    | Done
    | Refused  // the file does not exist or is not open, or there is no sector for an inode
    | Stopped  // sectors run out during growth, or the growth is outside its domain

  // ----- the simple machine -----

  datatype SimpleFile = SimpleFile(content: seq<byte>, opens: nat)

  datatype Simple = Simple(files: seq<SimpleFile>, free: nat)

  predicate IsOpen(s: Simple, k: nat) { k < |s.files| && s.files[k].opens > 0 }

  predicate CanWrite(length: nat, free: nat, offset: nat, size: nat)
  {
    Wraps(offset, size) || offset + size <= length || (GrowthDomain(length, offset, size) && free >= Needed(length, offset, size))
  }

  function Answer(s: Simple, op: FileOp): Outcome
  {
    match op
    case DoCreate(length) => if s.free == 0 then Refused else if CreateWorks(s.free - 1, length) then Created else Stopped
    case DoOpen(k) => if k < |s.files| then Done else Refused
    case DoClose(k) => if IsOpen(s, k) then Done else Refused
    case DoWrite(k, data, offset) =>
      if !IsOpen(s, k) then Refused
      else if CanWrite(|s.files[k].content|, s.free, offset, |data|) then Put(Stores(|s.files[k].content|, offset, |data|)) else Stopped
    case DoRead(k, size, offset) =>
      if !IsOpen(s, k) then Refused else Got(ReadRange(s.files[k].content, offset, size))
  }

  function Next(s: Simple, op: FileOp): Simple
    requires !Answer(s, op).Stopped?
  {
    if Answer(s, op).Refused? then s else
    match op
    case DoCreate(length) => Simple(s.files + [SimpleFile(Zeros(length), 0)], Less(s.free, 1 + Needed(0, 0, length)))
    case DoOpen(k) => s.(files := s.files[k := s.files[k].(opens := s.files[k].opens + 1)])
    case DoClose(k) => s.(files := s.files[k := s.files[k].(opens := s.files[k].opens - 1)])
    case DoWrite(k, data, offset) =>
      var c := s.files[k].content;
      Simple(s.files[k := s.files[k].(content := WrittenBy(c, offset, data))],
             if Wraps(offset, |data|) || offset + |data| <= |c| then s.free else Less(s.free, Needed(|c|, offset, |data|)))
    case DoRead(_, _, _) => s
  }

  function Less(a: nat, b: int): nat { if b <= a then a - b else 0 }

  /** All answers, up to and including the first `Stopped`. */
  function Answers(s: Simple, ops: seq<FileOp>): seq<Outcome>
    decreases |ops|
  {
    if ops == [] then []
    else if Answer(s, ops[0]).Stopped? then [Stopped]
    else [Answer(s, ops[0])] + Answers(Next(s, ops[0]), ops[1..])
  }

  /** The last state before a `Stopped`, or after all operations. */
  function Final(s: Simple, ops: seq<FileOp>): Simple
    decreases |ops|
  {
    if ops == [] || Answer(s, ops[0]).Stopped? then s else Final(Next(s, ops[0]), ops[1..])
  }

  /** Exactly when the machine stops: a create or a growing write that the growth code cannot carry out. */
  lemma StoppedIff(s: Simple, op: FileOp)
    ensures Answer(s, op).Stopped? <==>
            match op
            case DoCreate(length) => s.free > 0 && !(GrowthDomain(0, 0, length) && s.free > Needed(0, 0, length))
            case DoWrite(k, data, offset) =>
              && k < |s.files| && s.files[k].opens > 0 && |s.files[k].content| < offset + |data| < 0x8000_0000
              && var length := |s.files[k].content|;
                 !(GrowthDomain(length, offset, |data|) && s.free >= Needed(length, offset, |data|))
            case _ => false
    ensures Answer(s, op).Refused? <==>
            match op
            case DoCreate(_) => s.free == 0
            case DoOpen(k) => k >= |s.files|
            case _ => op.file >= |s.files| || s.files[op.file].opens == 0
  {
    hide GrowthDomain, Needed, ReadRange;
  }

  /** In the simple machine, and so in every run, a read after a write of the same range returns the data. */
  lemma ReadAfterWrite(s: Simple, k: nat, data: seq<byte>, offset: nat)
    requires Answer(s, DoWrite(k, data, offset)).Put? && !Wraps(offset, |data|)
    ensures var s' := Next(s, DoWrite(k, data, offset));
            && Answer(s, DoWrite(k, data, offset)) == Put(|data|) && Answer(s', DoRead(k, |data|, offset)) == Got(data)
            && forall j, size, at :: j != k ==> Answer(s', DoRead(j, size, at)) == Answer(s, DoRead(j, size, at))
  {
    hide ReadRange, WrittenBy, GrowthDomain, Needed;
    ReadBack(s.files[k].content, offset, data);
  }

  // ----- the file layer against it -----

  ghost predicate Rep(files: map<nat, seq<byte>>, open: OpenTable, free: nat, created: seq<nat>, s: Simple)
  {
    && |created| == |s.files| && free == s.free
    && (forall j, k :: 0 <= j < k < |created| ==> created[j] != created[k])
    && (forall k :: 0 <= k < |created| ==>
          && created[k] in files && files[created[k]] == s.files[k].content
          && (created[k] in open <==> s.files[k].opens > 0)
          && (created[k] in open ==> open[created[k]].openCnt == s.files[k].opens && open[created[k]].denyWriteCnt == 0))
  }

  ghost predicate Represents(fs: FileSystem, created: seq<nat>, s: Simple)
    reads fs, fs.store, fs.store.cache, fs.store.freeMap
  {
    fs.Valid() && Rep(fs.Contents(), fs.open, FreeCount(fs.store.freeMap.bits), created, s)
  }

  lemma RepFile(files: map<nat, seq<byte>>, open: OpenTable, free: nat, created: seq<nat>, s: Simple, k: nat)
    requires Rep(files, open, free, created, s)
    ensures |created| == |s.files| && free == s.free
    ensures k < |created| ==>
              && created[k] in files && files[created[k]] == s.files[k].content
              && (created[k] in open <==> IsOpen(s, k))
              && (created[k] in open ==> open[created[k]].openCnt == s.files[k].opens && open[created[k]].denyWriteCnt == 0)
  {
  }

  lemma RepCreate(files: map<nat, seq<byte>>, open: OpenTable, free: nat, created: seq<nat>, s: Simple, sector: nat, content: seq<byte>, free': nat)
    requires Rep(files, open, free, created, s) && sector !in files && sector !in open
    ensures Rep(files[sector := content], open, free', created + [sector], Simple(s.files + [SimpleFile(content, 0)], free'))
  {
  }

  /** One file changes its contents or its open count. */
  lemma RepChange(files: map<nat, seq<byte>>, open: OpenTable, free: nat, created: seq<nat>, s: Simple, k: nat,
                  files': map<nat, seq<byte>>, open': OpenTable, free': nat, f: SimpleFile)
    requires Rep(files, open, free, created, s) && k < |created|
    requires files' == files[created[k] := f.content]
    requires forall i :: i != created[k] ==> (i in open' <==> i in open) && (i in open ==> open'[i] == open[i])
    requires created[k] in open' <==> f.opens > 0
    requires created[k] in open' ==> open'[created[k]].openCnt == f.opens && open'[created[k]].denyWriteCnt == 0
    ensures Rep(files', open', free', created, Simple(s.files[k := f], free'))
  {
  }

  /** Lengths, offsets and sizes are non-negative `off_t` values. */
  predicate InRange(op: FileOp)
  {
    match op
    case DoCreate(length) => length < 0x8000_0000
    case DoWrite(_, data, offset) => offset < 0x8000_0000 && |data| < 0x8000_0000
    case _ => true
  }

  /** One operation of the file layer is one step of the simple machine. */
  method Perform(fs: FileSystem, created: seq<nat>, op: FileOp, ghost s: Simple) returns (out: Outcome, created': seq<nat>)
    requires Represents(fs, created, s) && InRange(op)
    modifies fs, fs.store, fs.store.cache, fs.store.freeMap
    ensures out == Answer(s, op)
    ensures !out.Stopped? ==> Represents(fs, created', Next(s, op))
  {
    hide Inv, Consistent, Coherent, Content, DataOf, Rep, WriteWorks, CreateWorks, SectorsTaken, Needed, GrowthDomain, ReadRange, WrittenBy, Stores, Files;
    ghost var files, open, free := fs.Contents(), fs.open, FreeCount(fs.store.freeMap.bits);
    created' := created;
    RepFile(files, open, free, created, s, if op.DoCreate? then 0 else op.file);
    match op
    case DoCreate(length) =>
      var success, intact, sector := fs.Create(length, false);
      if !success { return Refused, created; }
      if !intact { return Stopped, created; }
      out, created' := Created, created + [sector];
      RepCreate(files, open, free, created, s, sector, Zeros(length), FreeCount(fs.store.freeMap.bits));
    case DoOpen(k) =>
      if k >= |created| { return Refused, created; }
      FileNodes(fs);
      fs.Open(created[k]);
      out := Done;
      RepChange(files, open, free, created, s, k, fs.Contents(), fs.open, free, s.files[k].(opens := s.files[k].opens + 1));
    case DoClose(k) =>
      if k >= |created| || created[k] !in fs.open { return Refused, created; }
      fs.Close(created[k]);
      out := Done;
      RepChange(files, open, free, created, s, k, fs.Contents(), fs.open, free, s.files[k].(opens := s.files[k].opens - 1));
    case DoWrite(k, data, offset) =>
      if k >= |created| || created[k] !in fs.open { return Refused, created; }
      WriteNumbers(fs, created[k], offset, |data|);
      var r := fs.WriteAt(created[k], data, offset);
      if r.Corrupts? { return Stopped, created; }
      out := Put(r.count);
      RepChange(files, open, free, created, s, k, fs.Contents(), fs.open, FreeCount(fs.store.freeMap.bits),
                s.files[k].(content := WrittenBy(s.files[k].content, offset, data)));
    case DoRead(k, size, offset) =>
      if k >= |created| || created[k] !in fs.open { return Refused, created; }
      var bytes := fs.ReadAt(created[k], size, offset);
      out := Got(bytes);
  }

  lemma FileNodes(fs: FileSystem)
    ensures fs.Contents().Keys == fs.store.nodes.Keys
  {
  }

  /** When a write works depends on the length of the contents alone. */
  lemma WriteNumbers(fs: FileSystem, i: nat, offset: nat, size: nat)
    requires fs.Valid() && i in fs.open && fs.open[i].denyWriteCnt == 0
    ensures i in fs.Contents()
    ensures var free, length := FreeCount(fs.store.freeMap.bits), |fs.Contents()[i]|;
            && (WriteWorks(fs.open[i], free, offset, size) <==> CanWrite(length, free, offset, size))
            && length == fs.open[i].data.length && SectorsTaken(fs.open[i], offset, size) == if Wraps(offset, size) || offset + size <= length then 0 else Needed(length, offset, size)
  {
    hide Inv, Consistent, Coherent, Content, DataOf, GrowthDomain, Needed;
    OpenInfo(fs.store.Vol(), fs.open, i);
  }

  /**
   The refinement theorem over runs: from an empty volume, whatever the sequence
   of operations, the answers of the index tree, the buffer cache and the free
   map together are exactly those of the simple machine. Unless the run stops,
   the volume then represents the machine's last state; in particular it is
   valid, so that `OffsetsSeparate` holds of it.
   */
  method Run(fs: FileSystem, ops: seq<FileOp>) returns (outs: seq<Outcome>, created: seq<nat>)
    requires fs.Valid() && fs.open == map[] && fs.Contents() == map[]
    requires forall k :: 0 <= k < |ops| ==> InRange(ops[k])
    modifies fs, fs.store, fs.store.cache, fs.store.freeMap
    ensures outs == Answers(Simple([], FreeCount(old(fs.store.freeMap.bits))), ops)
    ensures Stopped !in outs ==>
              Represents(fs, created, Final(Simple([], FreeCount(old(fs.store.freeMap.bits))), ops))
  {
    hide Inv, Consistent, Coherent, Content, Files, Answer, Next, Answers, Final;
    outs := [];
    created := [];
    var n := 0;
    ghost var start := Simple([], FreeCount(fs.store.freeMap.bits));
    ghost var s := start;
    assert ops[0..] == ops;
    while n < |ops|
      invariant 0 <= n <= |ops| && Represents(fs, created, s)
      invariant Answers(start, ops) == outs + Answers(s, ops[n..]) && Final(start, ops) == Final(s, ops[n..])
    {
      var out;
      AnswersStep(s, ops[n..]);
      assert ops[n..][1..] == ops[n + 1..];
      out, created := Perform(fs, created, ops[n], s);
      outs := outs + [out];
      if out.Stopped? { return; }
      s := Next(s, ops[n]);
      n := n + 1;
    }
    NoAnswers(s);
    assert ops[n..] == [];
  }

  lemma AnswersStep(s: Simple, ops: seq<FileOp>)
    requires ops != []
    ensures Answer(s, ops[0]).Stopped? ==> Answers(s, ops) == [Answer(s, ops[0])]
    ensures !Answer(s, ops[0]).Stopped? ==> Final(s, ops) == Final(Next(s, ops[0]), ops[1..])
    ensures !Answer(s, ops[0]).Stopped? ==> Answers(s, ops) == [Answer(s, ops[0])] + Answers(Next(s, ops[0]), ops[1..])
  {
  }

  lemma NoAnswers(s: Simple)
    ensures Answers(s, []) == [] && Final(s, []) == s
  {
  }
}
