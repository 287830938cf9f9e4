/**
 * The bump-pointer allocator that carves the shared memory region into
 * slabs: `current_slab` starts at the region's base, and every `_new` hands
 * out the current address and advances it by the slab's size.  The atomic
 * fetch-and-add is modelled by its sequential meaning.
 */
module SlabAllocation {
  import opened Machine
  import opened Results

  /** The address of the k-th slab carved from start, for slabs of size bytes. */
  function NthSlab(start: nat, size: nat, k: nat): (a: nat)
    ensures a >= start
    ensures size > 0 && k > 0 ==> a > start
  {
    start + k * size
  }

  /** Later slabs start after the end of earlier ones: the slabs are increasing and do not overlap. */
  lemma {:induction false} NthSlabsDisjoint(start: nat, size: nat, j: nat, k: nat)
    requires j < k
    ensures NthSlab(start, size, j) + size <= NthSlab(start, size, k)
  {
    MulMono(size, j + 1, k);
    assert (j + 1) * size == j * size + size;
  }

  /** Quotient and remainder are unique: a == q * d + r with r < d fixes both. */
  lemma DivModUnique(a: nat, d: nat, q: nat, r: nat)
    requires d > 0 && r < d && a == q * d + r
    ensures a / d == q && a % d == r
  {
    var q0 := a / d;
    assert a == q0 * d + a % d;
    if q0 < q {
      MulMono(d, q0 + 1, q);
    } else if q < q0 {
      MulMono(d, q + 1, q0);
    }
  }

  /** A start aligned to the slab size keeps every slab aligned: `addr % sizeof(slab) == 0`. */
  lemma NthSlabAligned(start: nat, size: nat, k: nat)
    requires size > 0 && start % size == 0
    ensures NthSlab(start, size, k) % size == 0
  {
    var q := start / size;
    assert start == q * size;
    assert NthSlab(start, size, k) == (q + k) * size + 0;
    DivModUnique(NthSlab(start, size, k), size, q + k, 0);
  }

  class SharedMemorySlabAllocator {
    var currentSlab: u64
    /** `sizeof(slab_t)`. */
    const slabBytes: u64

    constructor (memRegion: u64, slabBytes: u64)
      requires slabBytes > 0
      ensures currentSlab == memRegion && this.slabBytes == slabBytes
    {
      currentSlab := memRegion;
      this.slabBytes := slabBytes;
    }

    /** `out_of_memory(end)`: no slab may start at or beyond end. */
    function OutOfMemory(end: u64): (r: bool)
      reads this
      ensures r <==> currentSlab >= end
      ensures !r ==> currentSlab < end
    {
      currentSlab >= end
    }

    /** `_new`: the old `current_slab`, which then advances by one slab (modulo 2^64). */
    method New() returns (r: u64)
      modifies this
      ensures r == old(currentSlab)
      ensures currentSlab == Wrap64(old(currentSlab) + slabBytes)
    {
      r := currentSlab;
      currentSlab := Wrap64(currentSlab + slabBytes);
    }
  }

  /**
   * The refill step of the object allocator: give up when the allocator is
   * out of memory, otherwise take a new slab and give up again when it does
   * not start below end.
   */
  method NewSlabBelow(a: SharedMemorySlabAllocator, end: u64) returns (r: Option<u64>)
    modifies a
    ensures r.None? <==> old(a.currentSlab) >= end
    ensures r.Some? ==> r.value == old(a.currentSlab) && r.value < end
                        && a.currentSlab == Wrap64(old(a.currentSlab) + a.slabBytes)
    ensures r.None? ==> a.currentSlab == old(a.currentSlab)
  {
    if a.OutOfMemory(end) {
      return None;
    }
    var s := a.New();
    if s >= end {
      return None;
    }
    return Some(s);
  }

  /**
   * Repeated refills below end, with the region ending at least one slab
   * before 2^64: the k-th slab handed out is NthSlab(base, size, k), all lie
   * below end, they are strictly increasing and pairwise disjoint, and they
   * keep the alignment of the base.  The refills stop early only when the
   * next slab would start at or beyond end.
   */
  method CarveSlabs(a: SharedMemorySlabAllocator, end: u64, n: nat) returns (got: seq<u64>)
    requires a.slabBytes > 0 && end + a.slabBytes <= Two64
    modifies a
    ensures |got| <= n
    ensures forall i :: 0 <= i < |got| ==> got[i] == NthSlab(old(a.currentSlab), a.slabBytes, i)
    ensures forall i :: 0 <= i < |got| ==> got[i] < end
    ensures forall i, j :: 0 <= i < j < |got| ==> got[i] + a.slabBytes <= got[j]
    ensures old(a.currentSlab) % a.slabBytes == 0 ==>
              forall i :: 0 <= i < |got| ==> got[i] % a.slabBytes == 0
    ensures |got| < n ==> NthSlab(old(a.currentSlab), a.slabBytes, |got|) >= end
    ensures a.currentSlab == NthSlab(old(a.currentSlab), a.slabBytes, |got|)
  {
    ghost var base := a.currentSlab;
    got := [];
    while |got| < n
      invariant |got| <= n
      invariant a.currentSlab == NthSlab(base, a.slabBytes, |got|)
      invariant forall i :: 0 <= i < |got| ==> got[i] == NthSlab(base, a.slabBytes, i)
      invariant forall i :: 0 <= i < |got| ==> got[i] < end
      decreases n - |got|
    {
      var r := NewSlabBelow(a, end);
      if r.None? {
        break;
      }
      got := got + [r.value];
    }
    forall i, j | 0 <= i < j < |got| ensures got[i] + a.slabBytes <= got[j] {
      NthSlabsDisjoint(base, a.slabBytes, i, j);
    }
    if base % a.slabBytes == 0 {
      forall i | 0 <= i < |got| ensures got[i] % a.slabBytes == 0 {
        NthSlabAligned(base, a.slabBytes, i);
      }
    }
  }
}
