/** The in-memory free map: one bit per sector, flipped in place. */
module FreeMap {

  /** How many sectors are still free. */
  ghost function FreeCount(bits: seq<bool>): nat
  {
    if bits == [] then 0 else FreeCount(bits[..|bits| - 1]) + (if bits[|bits| - 1] then 0 else 1)
  }

  /** Marking a free sector uses up exactly one. */
  lemma {:induction false} MarkOne(bits: seq<bool>, k: nat)
    requires k < |bits| && !bits[k]
    ensures FreeCount(bits[k := true]) + 1 == FreeCount(bits)
  {
    var last := |bits| - 1;
    if k < last {
      MarkOne(bits[..last], k);
      assert bits[k := true][..last] == bits[..last][k := true];
    } else {
      assert bits[k := true][..last] == bits[..last];
    }
  }

  lemma {:induction false} FreeCountZero(bits: seq<bool>)
    ensures FreeCount(bits) == 0 <==> forall k :: 0 <= k < |bits| ==> bits[k]
  {
    if bits != [] {
      var last := |bits| - 1;
      FreeCountZero(bits[..last]);
      assert forall k :: 0 <= k < last ==> bits[..last][k] == bits[k];
    }
  }

  /** `count` clear bits starting at `start`. */
  predicate Clear(bits: seq<bool>, start: nat, count: nat)
  {
    start + count <= |bits| && forall k :: start <= k < start + count ==> !bits[k]
  }

  function Fill(bits: seq<bool>, start: nat, count: nat, value: bool): (r: seq<bool>)
    requires start + count <= |bits|
    ensures |r| == |bits|
    ensures forall k :: 0 <= k < |bits| ==> r[k] == if start <= k < start + count then value else bits[k]
  {
    seq(|bits|, k requires 0 <= k < |bits| => if start <= k < start + count then value else bits[k])
  }

  class FreeMap {
    var bits: seq<bool>

    constructor (size: nat)
      requires 2 <= size
      ensures |bits| == size
      ensures forall k :: 0 <= k < size ==> bits[k] == (k < 2)
    {
      bits := seq(size, k => k < 2);
    }

    /**
     `free_map_allocate`: the lowest run of `count` free sectors, or failure.
     `saved` is what writing the map to its own file returns, or true while that
     file is not open; if it is false the bits are set back.
     */
    method Allocate(count: nat, saved: bool) returns (ok: bool, sector: nat)
      modifies this
      ensures ok <==> saved && exists s: nat :: Clear(old(bits), s, count)
      ensures ok ==> Clear(old(bits), sector, count)
      ensures ok ==> forall s: nat :: s < sector ==> !Clear(old(bits), s, count)
      ensures ok ==> bits == Fill(old(bits), sector, count, true)
      ensures !ok ==> bits == old(bits)
    {
      sector := 0;
      while sector + count <= |bits|
        invariant bits == old(bits)
        invariant forall s: nat :: s < sector ==> !Clear(bits, s, count)
      {
        var k := 0;
        while k < count && !bits[sector + k]
          invariant 0 <= k <= count
          invariant forall j :: sector <= j < sector + k ==> !bits[j]
        {
          k := k + 1;
        }
        if k == count {
          assert Clear(bits, sector, count);
          bits := Fill(bits, sector, count, true);
          if !saved {
            FillUndone(old(bits), sector, count);
            bits := Fill(bits, sector, count, false);
          }
          return saved, sector;
        }
        assert bits[sector + k];
        sector := sector + 1;
      }
      ok := false;
    }

    /** The only use the index tree makes of the map: one sector at a time. */
    method AllocateOne() returns (ok: bool, sector: nat)
      modifies this
      ensures ok <==> FreeCount(old(bits)) > 0
      ensures ok ==> sector < |old(bits)| && !old(bits)[sector] && bits == old(bits)[sector := true]
      ensures ok ==> forall k :: 0 <= k < sector ==> old(bits)[k]
      ensures ok ==> FreeCount(bits) + 1 == FreeCount(old(bits))
      ensures !ok ==> bits == old(bits)
    {
      ghost var was := bits;
      ok, sector := Allocate(1, true);
      FreeCountZero(was);
      if ok {
        assert bits == was[sector := true];
        MarkOne(was, sector);
        forall k | 0 <= k < sector ensures was[k] { assert !Clear(was, k, 1); }
      } else {
        forall k | 0 <= k < |was| ensures was[k] { assert !Clear(was, k, 1); }
      }
    }

    /** `free_map_release`; the source asserts that every sector given back is marked. */
    method Release(sector: nat, count: nat)
      requires sector + count <= |bits|
      requires forall k :: sector <= k < sector + count ==> bits[k]
      modifies this
      ensures bits == Fill(old(bits), sector, count, false)
    {
      bits := Fill(bits, sector, count, false);
    }
  }

  /** Clearing a run that was free before it was filled restores the map. */
  lemma FillUndone(bits: seq<bool>, sector: nat, count: nat)
    requires Clear(bits, sector, count)
    ensures Fill(Fill(bits, sector, count, true), sector, count, false) == bits
  {
  }

  /** An allocation that is given back, as when a file cannot be entered in its directory. */
  method AllocateAndRelease(m: FreeMap, count: nat) returns (ok: bool)
    modifies m
    ensures ok <==> exists s: nat :: Clear(old(m.bits), s, count)
    ensures m.bits == old(m.bits)
  {
    var sector;
    ok, sector := m.Allocate(count, true);
    if ok {
      FillUndone(old(m.bits), sector, count);
      m.Release(sector, count);
    }
  }
}
