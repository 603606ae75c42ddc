// The kernel-side index of mapped GPU ranges (stub/memory.cpp): buffers by handle, and
// mappings ordered by address with predecessor lookup.
module MappingIndexes {
  import opened UtilMath
  import opened Wrappers
  import opened Holes
  import opened VaDevices
  import opened VaRuns

  class GpuBuffer {
    const size: int

    constructor (size: int)
      ensures this.size == size
    {
      this.size := size;
    }
  }

  datatype Mapping = Mapping(buffer: GpuBuffer, offset: int, size: int)

  // The greatest start that is not above the address: upper_bound, one step back.
  ghost predicate IsPredecessor(m: map<int, Mapping>, adr: int, start: int) {
    start in m && start <= adr && forall s :: s in m && s <= adr ==> s <= start
  }

  lemma {:induction false} PredecessorExists(keys: set<int>, adr: int) returns (start: int)
    requires exists s :: s in keys && s <= adr
    ensures start in keys && start <= adr && forall s :: s in keys && s <= adr ==> s <= start
    decreases keys
  {
    var first :| first in keys && first <= adr;
    start := first;
    if s :| s in keys && s <= adr && s > first {
      assert s in keys - {first};
      start := PredecessorExists(keys - {first}, adr);
      assert s <= start;
      assert forall t :: t in keys && t != first ==> t in keys - {first};
    }
  }

  // The mapping starting at s contains the address.
  ghost predicate Contains(m: map<int, Mapping>, s: int, adr: int)
    requires s in m
  {
    s <= adr < s + m[s].size
  }

  ghost predicate Disjoint(m: map<int, Mapping>) {
    forall s, t :: s in m && t in m && s < t ==> s + m[s].size <= t
  }

  // Addresses and sizes are 64-bit words; their sums need not be.
  ghost predicate InWords(m: map<int, Mapping>) {
    forall s :: s in m ==> 0 <= s < TWO_TO_64 && 0 <= m[s].size < TWO_TO_64
  }

  // Overlap is exactly what predecessor lookup cannot see through: every mapping that
  // contains an address is the predecessor of that address, for all addresses, if and only
  // if no two mappings overlap.
  lemma PredecessorContainsIffDisjoint(m: map<int, Mapping>)
    ensures (forall s, adr :: s in m && Contains(m, s, adr) ==> IsPredecessor(m, adr, s)) <==> Disjoint(m)
  {
    if !Disjoint(m) {
      var s, t :| s in m && t in m && s < t && s + m[s].size > t;
      assert Contains(m, s, t) && !IsPredecessor(m, t, s);
    }
  }

  // Where the address falls in the buffer of the mapping at s, in a 64-bit word.
  function OffsetAt(m: map<int, Mapping>, s: int, adr: int): int
    requires s in m
  {
    Wrap(m[s].offset + adr - s, TWO_TO_64)
  }

  // What a linear search over all mappings would answer.
  ghost predicate IsLinearHit(m: map<int, Mapping>, adr: int, hit: Hit) {
    && (forall s :: s in m && Contains(m, s, adr) ==> hit == Found(m[s].buffer, OffsetAt(m, s, adr)))
    && ((forall s :: s in m ==> !Contains(m, s, adr)) ==> hit == Miss)
  }

  // Mapping exactly the ranges the address allocator has out keeps the index disjoint.
  lemma AllocatedMappingsDisjoint(m: map<int, Mapping>, s: VaState, start: int, max: int)
    requires Conserved(s, start, max)
    requires forall a :: a in m ==> Hole(a, m[a].size) in s.live
    ensures Disjoint(m)
  {
    forall a, b | a in m && b in m && a < b ensures a + m[a].size <= b {
      var l, k := Hole(a, m[a].size), Hole(b, m[b].size);
      assert l in s.live && k in s.live && l != k;
      assert b in Range(b, m[b].size);
      assert b !in Range(a, m[a].size);
    }
  }

  // The same for a process that maps ranges of all four managers, each mapping at a range
  // that its manager has out.
  lemma DeviceMappingsDisjoint(dev: VaDevice, m: map<int, Mapping>, home: map<int, MgrId>)
    requires dev.Valid() && dev.info.RangesApart()
    requires forall a :: a in m ==> a in home && Hole(a, m[a].size) in dev.Mgr(home[a]).live
    ensures Disjoint(m)
  {
    forall a, b | a in m && b in m && a < b ensures a + m[a].size <= b {
      var l, k := Hole(a, m[a].size), Hole(b, m[b].size);
      dev.LiveInSpan(home[b], k);
      dev.LiveRangesDisjoint(home[a], l, home[b], k);
      assert b in Range(b, m[b].size);
      assert b !in Range(a, m[a].size);
    }
  }

  // Where a lookup lands.
  datatype Hit = Miss | Found(buffer: GpuBuffer, offset: int)

  // What looking at the predecessor alone would answer if no sum wrapped.
  ghost function PredecessorHit(m: map<int, Mapping>, start: int, adr: int): Hit
    requires start in m
  {
    if Contains(m, start, adr) then Found(m[start].buffer, OffsetAt(m, start, adr)) else Miss
  }

  // Among disjoint mappings the predecessor's answer is the linear search's, and no other is.
  lemma LinearHitIffPredecessorHit(m: map<int, Mapping>, start: int, adr: int, hit: Hit)
    requires IsPredecessor(m, adr, start) && Disjoint(m)
    ensures IsLinearHit(m, adr, hit) <==> hit == PredecessorHit(m, start, adr)
  {
  }

  // A lookup that went by the mapping at start, and when that is right.
  ghost predicate LooksUp(m: map<int, Mapping>, start: int, adr: int, hit: Hit)
    requires start in m
  {
    var sound := start + m[start].size < TWO_TO_64 || !Contains(m, start, adr);
    && hit == (if sound then PredecessorHit(m, start, adr) else Miss)
    && (hit == PredecessorHit(m, start, adr) <==> sound)
    && (Disjoint(m) ==> (IsLinearHit(m, adr, hit) <==> sound))
  }

  class MappingIndex {
    var handles: map<int, GpuBuffer>
    var lastHandle: int            // a 32-bit counter
    var mappings: map<int, Mapping>
    ghost var created: nat         // the handles given out so far

    constructor ()
      ensures Valid() && handles == map[] && created == 0 && mappings == map[]
    {
      handles, lastHandle, mappings, created := map[], 1, map[], 0;
    }

    // Until the counter comes round, the handles in use lie below it.
    ghost predicate Valid()
      reads this
    {
      && 0 <= lastHandle < TWO_TO_32
      && (created < TWO_TO_32 - 1 ==> lastHandle == created + 1 && forall h :: h in handles ==> 1 <= h <= created)
    }

    // CreateGpuBuffer; areaOk stands for the two allocations. The handle is the counter's
    // value whatever it names; emplace gives it to the new buffer exactly when it is unused,
    // as it is for the first 2^32 - 1 buffers.
    method CreateBuffer(size: int, areaOk: bool) returns (handle: Option<int>)
      requires Valid()
      modifies this
      ensures Valid() && mappings == old(mappings)
      ensures handle == if areaOk then Some(old(lastHandle)) else None
      ensures !areaOk ==> handles == old(handles) && created == old(created)
      ensures areaOk ==>
                && created == old(created) + 1
                && handle.value in handles && handles == old(handles)[handle.value := handles[handle.value]]
                && (fresh(handles[handle.value]) <==> handle.value !in old(handles))
                && (handle.value !in old(handles) ==> handles[handle.value].size == size)
                && (old(created) < TWO_TO_32 - 1 ==> handle.value !in old(handles))
                && (handle.value in old(handles) ==> handles == old(handles))
    {
      if !areaOk {
        return None;
      }
      var buffer := new GpuBuffer(size);
      handle := Some(lastHandle);
      lastHandle := Wrap(lastHandle + 1, TWO_TO_32);
      created := created + 1;
      if handle.value !in handles {
        handles := handles[handle.value := buffer];
      }
    }

    // CloseGpuBuffer: the mappings keep what they refer to.
    method CloseBuffer(handle: int) returns (ok: bool)
      requires Valid()
      modifies this`handles
      ensures Valid() && (ok <==> handle in old(handles)) && handles == old(handles) - {handle}
    {
      if handle !in handles {
        return false;
      }
      handles := handles - {handle};
      return true;
    }

    // MapGpuBuffer. emplace leaves an existing mapping at the same address in place and
    // success is reported all the same.
    method MapBuffer(handle: int, mapAdr: int, offset: int, size: int) returns (ok: bool)
      modifies this`mappings
      ensures ok <==> handle in handles
      ensures mappings == if ok && mapAdr !in old(mappings)
                          then old(mappings)[mapAdr := Mapping(handles[handle], offset, size)] else old(mappings)
    {
      if handle !in handles {
        return false;
      }
      if mapAdr !in mappings {
        mappings := mappings[mapAdr := Mapping(handles[handle], offset, size)];
      }
      return true;
    }

    // UnmapGpuBuffer looks at the address alone.
    method UnmapBuffer(mapAdr: int) returns (ok: bool)
      modifies this`mappings
      ensures (ok <==> mapAdr in old(mappings)) && mappings == old(mappings) - {mapAdr}
    {
      if mapAdr !in mappings {
        return false;
      }
      mappings := mappings - {mapAdr};
      return true;
    }

    // std::map::upper_bound and the step back from it.
    method Predecessor(adr: int) returns (start: int)
      requires exists s :: s in mappings && s <= adr
      ensures IsPredecessor(mappings, adr, start)
    {
      ghost var p := PredecessorExists(mappings.Keys, adr);
      var below := map s | s in mappings && s <= adr :: mappings[s];
      assert p in below;
      start :| start in below && forall s :: s in below ==> s <= start;
    }

    // ThisMappedGpuBuffer. Stepping back needs an entry at or below the address. Its answer is
    // the right one for the predecessor exactly when the end of that mapping does not wrap or
    // the address lies outside it; with disjoint mappings that makes it a linear search.
    method Lookup(mapAdr: int) returns (hit: Hit)
      requires exists s :: s in mappings && s <= mapAdr
      requires InWords(mappings) && mapAdr < TWO_TO_64
      ensures exists start :: IsPredecessor(mappings, mapAdr, start) && LooksUp(mappings, start, mapAdr, hit)
      ensures forall start ::
                && start in mappings && start <= mapAdr
                && (forall s :: s in mappings && s <= mapAdr ==> s <= start) ==>
                  var m := mappings[start];
                  if mapAdr < start + m.size < TWO_TO_64 then
                    && hit.Found? && hit.buffer == m.buffer
                    && (0 <= m.offset + mapAdr - start < TWO_TO_64 ==> hit.offset == m.offset + mapAdr - start)
                  else
                    hit == Miss
    {
      var start := Predecessor(mapAdr);
      var mapping := mappings[start];
      if !(mapAdr < Wrap(start + mapping.size, TWO_TO_64)) {
        hit := Miss;
      } else {
        hit := Found(mapping.buffer, Wrap(mapping.offset + mapAdr - start, TWO_TO_64));
      }
      WrappedEnd(start, mapping.size);
      if Disjoint(mappings) {
        LinearHitIffPredecessorHit(mappings, start, mapAdr, hit);
      }
    }
  }

  lemma WrappedEnd(start: int, size: int)
    requires 0 <= start < TWO_TO_64 && 0 <= size < TWO_TO_64
    ensures start + size >= TWO_TO_64 ==> Wrap(start + size, TWO_TO_64) == start + size - TWO_TO_64
  {
  }
}
