/**
 The initial user stack: `setup_stack` splits the command line at spaces and
 pushes the strings, the argument vector and the call frame into one zeroed
 page at the top of user memory. A store below that page is a page fault, where
 the model ends.
 */
module ArgumentStack {
  import opened Bytes

  const STACK_PAGE: word := 0xBFFF_F000  // PHYS_BASE - PGSIZE
  const MAX_ARGS: nat := 64

  // ----- the command line -----

  /** Length of the leading word. */
  function WordLength(s: seq<byte>): (n: nat)
    ensures n <= |s| && 32 !in s[..n] && (n < |s| ==> s[n] == 32)
    ensures s != [] && s[0] != 32 ==> n > 0
  {
    if s == [] || s[0] == 32 then 0 else 1 + WordLength(s[1..])
  }

  /** What repeated `strtok_r (…, " ", …)` yields. */
  function Tokens(s: seq<byte>): (ts: seq<seq<byte>>)
    decreases |s|
  {
    if s == [] then []
    else if s[0] == 32 then Tokens(s[1..])
    else [s[..WordLength(s)]] + Tokens(s[WordLength(s)..])
  }

  /** The arguments written out, each followed by a space. */
  function Join(ts: seq<seq<byte>>): seq<byte>
  {
    if ts == [] then [] else ts[0] + [32] + Join(ts[1..])
  }

  /** Splitting undoes joining for all words a command line can hold. */
  lemma {:induction false} SplitUndoesJoin(ts: seq<seq<byte>>)
    requires forall i :: 0 <= i < |ts| ==> ts[i] != [] && 32 !in ts[i]
    ensures Tokens(Join(ts)) == ts
  {
    if ts != [] {
      var t, s, rest := ts[0], Join(ts), [32] + Join(ts[1..]);
      assert s == t + rest;
      WordLengthIs(s, |t|);
      assert s[..|t|] == t && s[|t|..] == rest && s[0] == t[0];
      assert rest[1..] == Join(ts[1..]);
      SplitUndoesJoin(ts[1..]);
      assert [t] + ts[1..] == ts;
    }
  }

  /** Every token is a non-empty word without a space. */
  lemma {:induction false} TokensAreWords(s: seq<byte>)
    ensures forall i :: 0 <= i < |Tokens(s)| ==> Tokens(s)[i] != [] && 32 !in Tokens(s)[i]
    decreases |s|
  {
    if s != [] { TokensAreWords(if s[0] == 32 then s[1..] else s[WordLength(s)..]); }
  }

  /** A word by itself is one argument. */
  lemma OneWord(w: seq<byte>)
    requires w != [] && 32 !in w
    ensures Tokens(w) == [w]
  {
    WordLengthIs(w, |w|);
    assert w[..|w|] == w && w[|w|..] == [];
  }

  /** A space separates: the arguments before it, then those behind it. */
  lemma {:induction false} SpaceSeparates(s: seq<byte>, t: seq<byte>)
    ensures Tokens(s + [32] + t) == Tokens(s) + Tokens(t)
    decreases |s|
  {
    var all := s + [32] + t;
    if s == [] {
      assert all[1..] == t;
    } else if s[0] == 32 {
      assert all[1..] == s[1..] + [32] + t;
      SpaceSeparates(s[1..], t);
    } else {
      var n := WordLength(s);
      assert n < |s| ==> all[n] == s[n];
      assert forall k :: 0 <= k < n ==> all[k] == s[..n][k];
      WordLengthIs(all, n);
      assert all[..n] == s[..n] && all[n..] == s[n..] + [32] + t;
      SpaceSeparates(s[n..], t);
    }
  }

  /** Extra spaces do not matter: written out with single spaces, a command line has the same words. */
  lemma SpacesDoNotMatter(s: seq<byte>)
    ensures Tokens(Join(Tokens(s))) == Tokens(s)
  {
    hide Tokens, Join;
    TokensAreWords(s);
    SplitUndoesJoin(Tokens(s));
  }

  // ----- decoding a finished stack -----

  predicate InPage(a: word, size: nat) { STACK_PAGE <= a && a + size <= STACK_PAGE + 4096 }

  function WordAt(m: seq<byte>, a: word): word
    requires |m| == 4096
  {
    if InPage(a, 4) then Le32(m, a - STACK_PAGE) else 0
  }

  function StringAt(m: seq<byte>, a: word): seq<byte>
    requires |m| == 4096
  {
    if InPage(a, 0) then CString(m[a - STACK_PAGE..]) else []
  }

  /** The arguments a C program started with stack pointer `esp` sees: `argc`, `argv`, `argv[0]`, … */
  function Decode(m: seq<byte>, esp: word): seq<seq<byte>>
    requires |m| == 4096
  {
    if InPage(esp, 12) then
      var argc, argv := WordAt(m, esp + 4), WordAt(m, esp + 8);
      seq(argc, (i: nat) => if argv + 4 * i < 0x1_0000_0000 then StringAt(m, WordAt(m, argv + 4 * i)) else [])
    else []
  }

  // ----- layout invariants -----

  /** String `i` lies at offset `at[i]`, below the strings pushed before it and not below `low`. */
  ghost predicate Strings(m: seq<byte>, ts: seq<seq<byte>>, at: seq<nat>, low: nat)
  {
    && |m| == 4096 && |at| == |ts| && low <= 4096
    && (forall i :: 0 <= i < |ts| ==> 0 !in ts[i] && low <= at[i] && at[i] + |ts[i]| + 1 <= 4096)
    && (forall i :: 0 <= i < |ts| ==> m[at[i]..at[i] + |ts[i]|] == ts[i] && m[at[i] + |ts[i]|] == 0)
    && (forall i, j :: 0 <= i < j < |ts| ==> at[j] + |ts[j]| + 1 <= at[i])
  }

  /** The words `ws` are stored from offset `low` upwards. */
  ghost predicate Words(m: seq<byte>, low: nat, ws: seq<word>)
  {
    |m| == 4096 && low + 4 * |ws| <= 4096 && forall i :: 0 <= i < |ws| ==> Le32(m, low + 4 * i) == ws[i]
  }

  lemma StringsBelow(m: seq<byte>, ts: seq<seq<byte>>, at: seq<nat>, low: nat, ofs: nat, data: seq<byte>)
    requires Strings(m, ts, at, low) && ofs + |data| <= low
    ensures Strings(Patch(m, ofs, data), ts, at, low)
  {
    var n := Patch(m, ofs, data);
    forall i | 0 <= i < |ts| ensures n[at[i]..at[i] + |ts[i]|] == ts[i] {
      assert n[at[i]..at[i] + |ts[i]|] == m[at[i]..at[i] + |ts[i]|];
    }
  }

  lemma OneMoreString(m: seq<byte>, ts: seq<seq<byte>>, at: seq<nat>, low: nat, t: seq<byte>)
    requires Strings(m, ts, at, low) && |t| + 1 <= low && 0 !in t
    ensures Strings(Patch(m, low - |t| - 1, t + [0]), ts + [t], at + [low - |t| - 1], low - |t| - 1)
  {
    var top := low - |t| - 1;
    StringsBelow(m, ts, at, low, top, t + [0]);
    var n := Patch(m, top, t + [0]);
    assert n[top..top + |t|] == t && n[top + |t|] == 0;
    var ts', at' := ts + [t], at + [top];
    forall i | 0 <= i < |ts'|
      ensures 0 !in ts'[i] && top <= at'[i] && at'[i] + |ts'[i]| + 1 <= 4096
      ensures n[at'[i]..at'[i] + |ts'[i]|] == ts'[i] && n[at'[i] + |ts'[i]|] == 0
    {
      if i < |ts| { assert ts'[i] == ts[i] && at'[i] == at[i]; }
    }
    forall i, j | 0 <= i < j < |ts'| ensures at'[j] + |ts'[j]| + 1 <= at'[i] { }
  }

  lemma OneMoreWord(m: seq<byte>, low: nat, ws: seq<word>, w: word)
    requires Words(m, low, ws) && 4 <= low
    ensures Words(Patch(m, low - 4, ToLe32(w)), low - 4, [w] + ws)
  {
    var n := Patch(m, low - 4, ToLe32(w));
    assert n[low - 4..low] == ToLe32(w);
    Le32At(n, low - 4, w);
    var vs := [w] + ws;
    forall i | 0 <= i < |vs| ensures Le32(n, low - 4 + 4 * i) == vs[i] {
      if i > 0 {
        assert low - 4 + 4 * i == low + 4 * (i - 1);
        Le32Same(n, m, low + 4 * (i - 1));
        assert vs[i] == ws[i - 1];
      }
    }
  }

  lemma StringFound(m: seq<byte>, ts: seq<seq<byte>>, at: seq<nat>, low: nat, i: nat)
    requires Strings(m, ts, at, low) && i < |ts|
    ensures StringAt(m, STACK_PAGE + at[i]) == ts[i]
  {
    var s := m[at[i]..];
    assert s[..|ts[i]|] == m[at[i]..at[i] + |ts[i]|];
    CStringIs(s, ts[i]);
  }

  predicate AllInPage(at: seq<nat>) { forall i :: 0 <= i < |at| ==> at[i] <= 4096 }

  /** Addresses of the first `n` strings. */
  function Addresses(at: seq<nat>, n: nat): (r: seq<word>)
    requires n <= |at| && AllInPage(at)
    ensures |r| == n && forall i :: 0 <= i < n ==> r[i] == STACK_PAGE + at[i]
  {
    if n == 0 then [] else Addresses(at, n - 1) + [STACK_PAGE + at[n - 1]]
  }

  /** The words on a finished stack: return address, argc, argv, then the vector itself with its null. */
  ghost predicate Finished(m: seq<byte>, ts: seq<seq<byte>>, at: seq<nat>, low: nat, esp: nat)
  {
    && Strings(m, ts, at, low)
    && AllInPage(at) && |at| == |ts| && esp + 4 * (|ts| + 4) <= low <= 4096
    && Words(m, esp, FrameWords(at, esp))
  }

  function FrameWords(at: seq<nat>, esp: nat): (ws: seq<word>)
    requires AllInPage(at) && |at| < 1024 && esp + 12 <= 4096
    ensures |ws| == |at| + 4 && ws[0] == 0 && ws[1] == |at| && ws[2] == STACK_PAGE + esp + 12 && ws[|at| + 3] == 0
    ensures forall i :: 0 <= i < |at| ==> ws[3 + i] == STACK_PAGE + at[i]
  {
    [0, |at|, STACK_PAGE + esp + 12] + Addresses(at, |at|) + [0]
  }

  lemma WordIs(m: seq<byte>, low: nat, ws: seq<word>, i: nat)
    requires Words(m, low, ws) && i < |ws|
    ensures |m| == 4096 && low + 4 * |ws| <= 4096 && WordAt(m, STACK_PAGE + low + 4 * i) == ws[i]
  {
    assert Le32(m, low + 4 * i) == ws[i];
  }

  /** The call frame of a finished stack: a null return address, argc, and argv ending in null. */
  lemma FrameIs(m: seq<byte>, ts: seq<seq<byte>>, at: seq<nat>, low: nat, esp: nat)
    requires Finished(m, ts, at, low, esp)
    ensures |m| == 4096 && InPage(STACK_PAGE + esp, 4 * (|ts| + 4))
    ensures WordAt(m, STACK_PAGE + esp) == 0 && WordAt(m, STACK_PAGE + esp + 4) == |ts|
    ensures WordAt(m, STACK_PAGE + esp + 8) == STACK_PAGE + esp + 12
    ensures WordAt(m, STACK_PAGE + esp + 12 + 4 * |ts|) == 0
  {
    hide Strings, Words, WordAt, FrameWords;
    var ws := FrameWords(at, esp);
    WordIs(m, esp, ws, 0);
    WordIs(m, esp, ws, 1);
    WordIs(m, esp, ws, 2);
    WordIs(m, esp, ws, |at| + 3);
  }

  lemma ArgumentIs(m: seq<byte>, ts: seq<seq<byte>>, at: seq<nat>, low: nat, esp: nat, i: nat)
    requires Finished(m, ts, at, low, esp) && i < |ts|
    ensures |m| == 4096 && StringAt(m, WordAt(m, STACK_PAGE + esp + 12 + 4 * i)) == ts[i]
  {
    hide Strings, Words, WordAt, FrameWords, StringAt;
    WordIs(m, esp, FrameWords(at, esp), 3 + i);
    StringFound(m, ts, at, low, i);
  }

  /** Reading a finished stack back gives the arguments in order. */
  lemma DecodeFinished(m: seq<byte>, ts: seq<seq<byte>>, at: seq<nat>, low: nat, esp: nat)
    requires Finished(m, ts, at, low, esp)
    ensures |m| == 4096 && Decode(m, STACK_PAGE + esp) == ts
  {
    hide Finished, WordAt, StringAt;
    FrameIs(m, ts, at, low, esp);
    var r := Decode(m, STACK_PAGE + esp);
    forall i | 0 <= i < |ts| ensures r[i] == ts[i] { ArgumentIs(m, ts, at, low, esp, i); }
  }

  // ----- the code -----

  datatype StackResult = Ready(esp: word) | TooManyArguments | Faults

  function TotalSize(ts: seq<seq<byte>>): nat
  {
    if ts == [] then 0 else TotalSize(ts[..|ts| - 1]) + |ts[|ts| - 1]| + 1
  }

  lemma {:induction false} TotalSizePrefix(ts: seq<seq<byte>>, us: seq<seq<byte>>)
    ensures TotalSize(ts) <= TotalSize(ts + us)
  {
    if us == [] {
      assert ts + us == ts;
    } else {
      var n := |us| - 1;
      TotalSizePrefix(ts, us[..n]);
      assert (ts + us)[..|ts + us| - 1] == ts + us[..n];
    }
  }

  /** Offset of the stack pointer after the strings and the alignment. */
  function AlignedTop(size: nat): nat
    requires size <= 4096
  {
    4096 - size - (4096 - size) % 4
  }

  /** Strings, alignment, `argc + 1` pointers and three more words fit the page. */
  predicate FitsPage(ts: seq<seq<byte>>)
  {
    TotalSize(ts) <= 4096 && 4 * (|ts| + 4) <= AlignedTop(TotalSize(ts))
  }

  /** The bytes that the arguments take are those of the arguments written out. */
  lemma {:induction false} SizeIsJoined(ts: seq<seq<byte>>)
    ensures TotalSize(ts) == |Join(ts)|
  {
    if ts != [] {
      var init, last := ts[..|ts| - 1], ts[|ts| - 1];
      SizeIsJoined(init);
      JoinSnoc(init, last);
      assert ts == init + [last];
    }
  }

  lemma {:induction false} JoinSnoc(ts: seq<seq<byte>>, t: seq<byte>)
    ensures Join(ts + [t]) == Join(ts) + (t + [32])
  {
    if ts == [] {
      assert ts + [t] == [t] && [t][1..] == [];
    } else {
      JoinSnoc(ts[1..], t);
      assert (ts + [t])[1..] == ts[1..] + [t];
    }
  }

  /** In plain numbers: strings with their NULs, padding to a word, the vector with its null, and three words. */
  lemma FitsIff(ts: seq<seq<byte>>)
    ensures var size := |Join(ts)|;
            FitsPage(ts) <==> size + (4 - size % 4) % 4 + 4 * (|ts| + 1) + 12 <= 4096
  {
    SizeIsJoined(ts);
  }

  method Memcpy(page: array<byte>, ofs: nat, data: seq<byte>)
    requires ofs + |data| <= page.Length
    modifies page
    ensures page[..] == Patch(old(page[..]), ofs, data)
  {
    for k := 0 to |data|
      invariant page[..] == Patch(old(page[..]), ofs, data[..k])
    {
      page[ofs + k] := data[k];
      assert data[..k + 1] == data[..k] + [data[k]];
    }
    assert data[..|data|] == data;
  }

  lemma {:induction false} WordLengthIs(s: seq<byte>, n: nat)
    requires n <= |s| && (forall k :: 0 <= k < n ==> s[k] != 32) && (n < |s| ==> s[n] == 32)
    ensures WordLength(s) == n
  {
    if n > 0 { WordLengthIs(s[1..], n - 1); }
  }

  lemma TokensSkip(cmd: seq<byte>, pos: nat)
    requires pos < |cmd| && cmd[pos] == 32
    ensures Tokens(cmd[pos..]) == Tokens(cmd[pos + 1..])
  {
    assert cmd[pos..][1..] == cmd[pos + 1..];
  }

  lemma TokensTake(cmd: seq<byte>, pos: nat, to: nat)
    requires pos < to <= |cmd| && (forall k :: pos <= k < to ==> cmd[k] != 32) && (to < |cmd| ==> cmd[to] == 32)
    ensures Tokens(cmd[pos..]) == [cmd[pos..to]] + Tokens(cmd[to..])
  {
    var s, n := cmd[pos..], to - pos;
    WordLengthIs(s, n);
    assert s[..n] == cmd[pos..to] && s[n..] == cmd[to..] && s[0] == cmd[pos];
  }

  /** One call of `strtok_r`: the next token, or none, and where to go on. */
  method NextToken(cmd: seq<byte>, from: nat) returns (found: bool, token: seq<byte>, to: nat)
    requires from <= |cmd| && 0 !in cmd
    ensures from <= to <= |cmd| && (found ==> from < to) && 0 !in token
    ensures Tokens(cmd[from..]) == if found then [token] + Tokens(cmd[to..]) else []
  {
    hide Tokens, WordLength;
    var pos := from;
    while pos < |cmd| && cmd[pos] == 32
      invariant from <= pos <= |cmd| && Tokens(cmd[from..]) == Tokens(cmd[pos..])
    {
      TokensSkip(cmd, pos);
      pos := pos + 1;
    }
    if pos == |cmd| {
      NoTokens(cmd);
      return false, [], pos;
    }
    to := pos;
    while to < |cmd| && cmd[to] != 32
      invariant pos <= to <= |cmd| && (to == pos ==> cmd[pos] != 32) && forall k :: pos <= k < to ==> cmd[k] != 32
    {
      to := to + 1;
    }
    found, token := true, cmd[pos..to];
    TokensTake(cmd, pos, to);
  }

  lemma NoTokens(cmd: seq<byte>)
    ensures Tokens(cmd[|cmd|..]) == []
  {
  }

  lemma TotalSizeSnoc(ts: seq<seq<byte>>, token: seq<byte>)
    ensures TotalSize(ts + [token]) == TotalSize(ts) + |token| + 1
  {
    assert (ts + [token])[..|ts|] == ts;
  }

  /** `ts` and one more token are the first arguments. */
  lemma OneMoreToken(ts: seq<seq<byte>>, token: seq<byte>, rest: seq<seq<byte>>, all: seq<seq<byte>>)
    requires all == ts + ([token] + rest)
    ensures all == (ts + [token]) + rest
    ensures TotalSize(ts + [token]) == TotalSize(ts) + |token| + 1 <= TotalSize(all) && |ts| < |all|
  {
    hide TotalSize;
    assert ts + ([token] + rest) == (ts + [token]) + rest;
    TotalSizeSnoc(ts, token);
    TotalSizePrefix(ts + [token], rest);
  }

  lemma NoStrings(m: seq<byte>)
    requires |m| == 4096
    ensures Strings(m, [], [], 4096) && TotalSize([]) == 0
  {
  }

  /** The loop of `setup_stack` over the tokens. */
  method PushStrings(cmd: seq<byte>, page: array<byte>) returns (r: StackResult, at: seq<nat>, esp: nat)
    requires page.Length == 4096 && 0 !in cmd
    modifies page
    ensures r.Ready? <==> |Tokens(cmd)| < MAX_ARGS && TotalSize(Tokens(cmd)) <= 4096
    ensures r.Ready? ==> Strings(page[..], Tokens(cmd), at, esp) && esp == 4096 - TotalSize(Tokens(cmd))
  {
    hide Strings, Tokens, TotalSize;
    ghost var ts: seq<seq<byte>> := [];
    at, esp, r := [], 4096, Ready(STACK_PAGE);
    NoStrings(page[..]);
    var found, token, pos := NextToken(cmd, 0);
    assert cmd[0..] == cmd;
    while found
      invariant pos <= |cmd| && 0 !in token && |at| == |ts| < MAX_ARGS
      invariant Tokens(cmd) == ts + if found then [token] + Tokens(cmd[pos..]) else []
      invariant Strings(page[..], ts, at, esp) && esp == 4096 - TotalSize(ts) && r.Ready?
      decreases |cmd| - pos, found
    {
      OneMoreToken(ts, token, Tokens(cmd[pos..]), Tokens(cmd));
      if esp < |token| + 1 { return Faults, at, esp; }
      OneMoreString(page[..], ts, at, esp, token);
      esp := esp - (|token| + 1);
      at := at + [esp];
      Memcpy(page, esp, token + [0]);
      ts := ts + [token];
      if |at| >= MAX_ARGS { return TooManyArguments, at, esp; }
      found, token, pos := NextToken(cmd, pos);
    }
    assert ts == Tokens(cmd);
  }

  /** `*esp -= 4; memcpy (*esp, &w, 4)`. */
  method PushWord(page: array<byte>, esp: nat, w: word, ghost ts: seq<seq<byte>>, ghost at: seq<nat>, ghost low: nat, ghost ws: seq<word>)
    returns (esp': nat)
    requires page.Length == 4096 && 4 <= esp <= low && Strings(page[..], ts, at, low) && Words(page[..], esp, ws)
    modifies page
    ensures esp' == esp - 4 && Strings(page[..], ts, at, low) && Words(page[..], esp', [w] + ws)
  {
    hide Strings, Words;
    StringsKept(page[..], ts, at, low, esp - 4, ToLe32(w));
    OneMoreWord(page[..], esp, ws, w);
    esp' := esp - 4;
    Memcpy(page, esp', ToLe32(w));
  }

  lemma StringsKept(m: seq<byte>, ts: seq<seq<byte>>, at: seq<nat>, low: nat, ofs: nat, data: seq<byte>)
    requires Strings(m, ts, at, low) && ofs + |data| <= low
    ensures |m| == 4096 && Strings(Patch(m, ofs, data), ts, at, low)
  {
    StringsBelow(m, ts, at, low, ofs, data);
  }

  /** The argument vector, from its null down to `argv[0]`. */
  method PushVector(page: array<byte>, top: nat, at: seq<nat>, ghost ts: seq<seq<byte>>, ghost low: nat) returns (esp: nat)
    requires page.Length == 4096 && 4 * (|at| + 1) <= top <= low && Strings(page[..], ts, at, low) && AllInPage(at)
    modifies page
    ensures esp == top - 4 * (|at| + 1) && Strings(page[..], ts, at, low)
    ensures Words(page[..], esp, Addresses(at, |at|) + [0])
  {
    hide Words, Strings, Addresses;
    StringsLength(page[..], ts, at, low);
    NoWords(page[..], top);
    esp := PushWord(page, top, 0, ts, at, low, []);
    ghost var ws: seq<word> := [0];
    assert [0] + [] == ws;
    var i := |at|;
    while i > 0
      invariant 0 <= i <= |at| && esp == top - 4 * (|at| - i + 1)
      invariant Strings(page[..], ts, at, low) && Words(page[..], esp, ws)
      invariant |ws| == |at| - i + 1 && Addresses(at, i) + ws == Addresses(at, |at|) + [0]
    {
      i := i - 1;
      AddressesLast(at, i);
      esp := PushWord(page, esp, STACK_PAGE + at[i], ts, at, low, ws);
      assert Addresses(at, i) + [STACK_PAGE + at[i]] + ws == Addresses(at, i) + ([STACK_PAGE + at[i]] + ws);
      ws := [STACK_PAGE + at[i]] + ws;
    }
    assert Addresses(at, 0) + ws == ws;
  }

  lemma AddressesLast(at: seq<nat>, i: nat)
    requires AllInPage(at) && i < |at|
    ensures Addresses(at, i + 1) == Addresses(at, i) + [STACK_PAGE + at[i]]
  {
  }

  lemma NoWords(m: seq<byte>, low: nat)
    requires |m| == 4096 && low <= 4096
    ensures Words(m, low, [])
  {
  }

  /**
   `setup_stack`. It succeeds exactly for fewer than 64 arguments that fit the
   page together with their vector; then the started program sees exactly the
   words of the command line, in order, on an aligned stack.
   */
  method SetupStack(cmd: seq<byte>, page: array<byte>) returns (r: StackResult, ghost at: seq<nat>, ghost low: nat)
    requires page.Length == 4096 && 0 !in cmd
    modifies page
    ensures r.Ready? <==> |Tokens(cmd)| < 64 && FitsPage(Tokens(cmd))
    ensures r.Ready? ==> Decode(page[..], r.esp) == Tokens(cmd)
    ensures r.Ready? ==> r.esp % 4 == 0 && STACK_PAGE <= r.esp && Finished(page[..], Tokens(cmd), at, low, r.esp - STACK_PAGE)
  {
    hide Strings, Words, Decode, TotalSize, Tokens, FrameWords, AllInPage;
    ghost var ts := Tokens(cmd);
    var strings, esp;
    r, strings, esp := PushStrings(cmd, page);
    at, low := strings, esp;
    if !r.Ready? { return; }
    StringsLength(page[..], ts, at, low);
    var argc := |strings|;
    esp := esp - esp % 4;
    if esp < 4 * (argc + 4) { return Faults, at, low; }
    esp := PushVector(page, esp, strings, ts, low);
    var argv: word := STACK_PAGE + esp;
    ghost var ws := Addresses(at, |at|) + [0];
    esp := PushWord(page, esp, argv, ts, at, low, ws);
    esp := PushWord(page, esp, argc, ts, at, low, [argv] + ws);
    esp := PushWord(page, esp, 0, ts, at, low, [argc] + ([argv] + ws));
    FrameJoin(at, esp, argc, argv);
    DecodeFinished(page[..], ts, at, low, esp);
    r := Ready(STACK_PAGE + esp);
  }

  lemma FrameJoin(at: seq<nat>, esp: nat, argc: word, argv: word)
    requires AllInPage(at) && argc == |at| < 1024 && esp + 12 <= 4096 && argv == STACK_PAGE + esp + 12
    ensures [0] + ([argc] + ([argv] + (Addresses(at, |at|) + [0]))) == FrameWords(at, esp)
  {
  }

  lemma StringsLength(m: seq<byte>, ts: seq<seq<byte>>, at: seq<nat>, low: nat)
    requires Strings(m, ts, at, low)
    ensures |at| == |ts| && low <= 4096 && AllInPage(at)
  {
  }
}
