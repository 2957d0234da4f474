/**
 Bytes, 512-byte sectors and little-endian words, shared by every module that
 describes what is stored on a device.
 */
module Bytes {

  type byte = x: int | 0 <= x < 256

  type word = x: int | 0 <= x < 0x1_0000_0000

  const BLOCK_SECTOR_SIZE: nat := 512

  function Zeros(n: nat): (z: seq<byte>)
    ensures |z| == n
    ensures forall k :: 0 <= k < n ==> z[k] == 0
  {
    seq(n, _ => 0)
  }

  /** The contents of one device sector. */
  type Block = b: seq<byte> | |b| == 512 witness Zeros(512)

  const ZERO_BLOCK: Block := Zeros(512)

  /** `memcpy (s + ofs, data, |data|)`. */
  function Patch(s: seq<byte>, ofs: nat, data: seq<byte>): (r: seq<byte>)
    requires ofs + |data| <= |s|
    ensures |r| == |s|
    ensures forall k :: 0 <= k < |s| ==> r[k] == if ofs <= k < ofs + |data| then data[k - ofs] else s[k]
  {
    s[..ofs] + data + s[ofs + |data|..]
  }

  /** The 32-bit word stored at `ofs`, least significant byte first. */
  function Le32(s: seq<byte>, ofs: nat): word
    requires ofs + 4 <= |s|
  {
    var b0: int, b1: int, b2: int, b3: int := s[ofs], s[ofs + 1], s[ofs + 2], s[ofs + 3];
    b0 + 0x100 * b1 + 0x1_0000 * b2 + 0x100_0000 * b3
  }

  function ToLe32(v: word): (r: seq<byte>)
    ensures |r| == 4
  {
    [v % 0x100, v / 0x100 % 0x100, v / 0x1_0000 % 0x100, v / 0x100_0000]
  }

  lemma Le32RoundTrip(v: word)
    ensures Le32(ToLe32(v), 0) == v
  {
    assert v == v % 0x100 + 0x100 * (v / 0x100);
    assert v / 0x100 == v / 0x100 % 0x100 + 0x100 * (v / 0x1_0000);
    assert v / 0x1_0000 == v / 0x1_0000 % 0x100 + 0x100 * (v / 0x100_0000);
  }

  /** Reading a word back from anywhere in a larger buffer. */
  lemma Le32At(s: seq<byte>, ofs: nat, v: word)
    requires ofs + 4 <= |s| && s[ofs..ofs + 4] == ToLe32(v)
    ensures Le32(s, ofs) == v
  {
    Le32RoundTrip(v);
    var t := s[ofs..ofs + 4];
    assert s[ofs] == t[0] && s[ofs + 1] == t[1] && s[ofs + 2] == t[2] && s[ofs + 3] == t[3];
  }

  /** Two buffers that agree on four bytes hold the same word there. */
  lemma Le32Same(s: seq<byte>, t: seq<byte>, ofs: nat)
    requires ofs + 4 <= |s| && ofs + 4 <= |t|
    requires forall k :: ofs <= k < ofs + 4 ==> s[k] == t[k]
    ensures Le32(s, ofs) == Le32(t, ofs)
  {
  }

  /** The C string at the start of a buffer. */
  function CString(s: seq<byte>): (r: seq<byte>)
    ensures |r| <= |s| && r == s[..|r|] && 0 !in r && (|r| < |s| ==> s[|r|] == 0)
  {
    if s == [] || s[0] == 0 then [] else [s[0]] + CString(s[1..])
  }

  /** A C string is determined by its characters and the NUL behind them. */
  lemma {:induction false} CStringIs(s: seq<byte>, name: seq<byte>)
    requires |name| < |s| && s[..|name|] == name && s[|name|] == 0 && 0 !in name
    ensures CString(s) == name
  {
    if name != [] {
      assert s[0] == name[0] && name[0] in name;
      assert s[1..][..|name| - 1] == name[1..];
      CStringIs(s[1..], name[1..]);
    }
  }
}
