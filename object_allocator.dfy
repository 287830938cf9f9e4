/**
 * Address arithmetic of the object allocator: the slab-aligned bounds of the
 * managed region, the range test of a pointer, the slab of an address, the
 * address of the object handed out, and the size class chosen for a
 * request.  Addresses are uint64_t and the arithmetic wraps modulo 2^64.
 */
module ObjectAllocator {
  import opened Machine
  import opened SlabTraits

  /** `rounddown(x, slab_size)`: the largest multiple of the slab size not above x. */
  function RoundDownSlab(x: u64): (r: u64)
    ensures r % SlabSize == 0 && r <= x < r + SlabSize
  {
    x - x % SlabSize
  }

  /**
   * `roundup(x, slab_size)` as `(x + slab_size - 1) & ~(slab_size - 1)`: the
   * least multiple of the slab size not below x, unless the sum wraps.
   */
  function CalculateStart(m: u64): (r: u64)
    ensures r % SlabSize == 0
    ensures m + SlabSize <= Two64 ==> m <= r < m + SlabSize
  {
    var x := Wrap64(m + (SlabSize - 1));
    x - x % SlabSize
  }

  /** The end of the slab area, as written: the misalignment is subtracted from the size. */
  function CalculateEnd(m: u64, regionSize: u64): u64 {
    var misalignment := m % SlabSize;
    if misalignment != 0 then
      Wrap64(CalculateStart(m) + RoundDownSlab(Wrap64(regionSize - misalignment)))
    else
      Wrap64(m + RoundDownSlab(regionSize))
  }

  /**
   * Both branches of CalculateEnd give a slab boundary at or after the start,
   * provided nothing wraps.
   */
  lemma CalculateEndAligned(m: u64, regionSize: u64)
    requires regionSize >= m % SlabSize
    requires m + regionSize + SlabSize < Two64
    ensures CalculateEnd(m, regionSize) % SlabSize == 0
    ensures CalculateStart(m) <= CalculateEnd(m, regionSize)
  {
    var mis := m % SlabSize;
    if mis == 0 {
      assert CalculateStart(m) == m;
    }
  }

  /**
   * The end as written can lie past the region: m = slab_size + 1 with a
   * region of 2 * slab_size + 1 bytes ends at 3 * slab_size + 2 but gets the
   * end 4 * slab_size.
   */
  lemma CalculateEndOvershoots()
    ensures CalculateEnd(SlabSize + 1, 2 * SlabSize + 1) == 4 * SlabSize
    ensures CalculateEnd(SlabSize + 1, 2 * SlabSize + 1) > (SlabSize + 1) + (2 * SlabSize + 1)
  {
  }

  /**
   * The evident intent: subtract the bytes skipped to reach the first slab
   * boundary, `slab_size - misalignment`, not the misalignment itself.
   */
  function CalculateEndCorrected(m: u64, regionSize: u64): u64 {
    Wrap64(CalculateStart(m) + RoundDownSlab(Wrap64(regionSize - Wrap64(CalculateStart(m) - m))))
  }

  /**
   * The corrected end is the last slab boundary inside the region
   * [m, m + regionSize): whole slabs from the start up to it fit the region,
   * and one more slab would not.
   */
  lemma CalculateEndCorrectedFits(m: u64, regionSize: u64)
    requires m + regionSize + SlabSize < Two64
    requires CalculateStart(m) - m <= regionSize
    ensures var e := CalculateEndCorrected(m, regionSize);
            e % SlabSize == 0 && CalculateStart(m) <= e <= m + regionSize
            && m + regionSize < e + SlabSize
  {
  }

  /** `in_range`: strictly above the region base and strictly below the end. */
  predicate InRange(m: u64, end: u64, p: u64) {
    p > m && p < end
  }

  /** `addr & ~(slab_size - 1)`: the slab an address lies in. */
  function AddrToSlab(a: u64): (r: u64)
    ensures r % SlabSize == 0
    ensures r <= a && a - r < SlabSize
  {
    a - a % SlabSize
  }

  /** Taking the slab of a slab address changes nothing. */
  lemma AddrToSlabIdempotent(a: u64)
    ensures AddrToSlab(AddrToSlab(a)) == AddrToSlab(a)
  {
  }

  /** Any address inside an aligned slab maps back to that slab. */
  lemma AddrToSlabOfInside(slab: u64, offset: nat)
    requires slab % SlabSize == 0 && offset < SlabSize && slab + offset < Two64
    ensures AddrToSlab(slab + offset) == slab
  {
    assert (slab + offset) % SlabSize == offset;
  }

  /** The object address returned for slot ret of a slab of class idx. */
  function ObjectAddress(slab: u64, idx: nat, ret: u64): u64
    requires idx < NumSizeClasses
  {
    Wrap64(Wrap64(slab + Wrap64(SizeClasses[idx] * ret)) + SizeIdxToMetaData[idx])
  }

  /** The offset of slot ret from the slab base, past the metadata and inside the slab. */
  lemma ObjectOffsetFits(idx: nat, ret: u64)
    requires idx < NumSizeClasses
    requires ret < ObjSlabTraits(SizeClasses[idx]).capacity
    ensures 0 < SizeIdxToMetaData[idx]
    ensures SizeClasses[idx] * ret + SizeIdxToMetaData[idx] + SizeClasses[idx] <= SlabSize
  {
    var size := SizeClasses[idx];
    var t := ObjSlabTraits(size);
    ClassTraitsHold(idx);
    MetaDataTableAgrees(idx);
    ClassBounds(idx);
    FitWithoutWrap(size, t);
    SlotBelowCapacityFits(size, t.capacity, t.metaDataSize, ret);
  }

  /** Every class is at most 256 bytes, its capacity at most the slab, and its metadata non-empty. */
  lemma ClassBounds(idx: nat)
    requires idx < NumSizeClasses
    ensures 0 < SizeClasses[idx] <= 256 && 0 < SizeIdxToMetaData[idx] <= SlabSize
    ensures ObjSlabTraits(SizeClasses[idx]).capacity <= SlabSize
  {
    CapacityBound(SizeClasses[idx]);
  }

  /** No layout holds more objects than the slab has bytes. */
  lemma CapacityBound(size: u64)
    requires size > 0
    ensures ObjSlabTraits(size).capacity <= SlabSize
  {
    var n: nat := SlabSize - 256;
    DivBounds(n, size);
    MulMono(n / size, 1, size);
  }

  /** A fitting layout has no wrap-around in its sums: objects and metadata fit the slab. */
  lemma FitWithoutWrap(size: u64, t: Traits)
    requires FitAssert(size, t) && size <= 256 && t.capacity <= SlabSize && t.metaDataSize <= SlabSize
    ensures t.capacity * size + t.metaDataSize <= SlabSize
  {
    MulMono(t.capacity, size, 256);
    MulMono(256, t.capacity, SlabSize);
    assert Wrap64(t.capacity * size) == t.capacity * size;
  }

  /** A slot below the capacity ends no later than the whole capacity. */
  lemma SlotBelowCapacityFits(size: nat, capacity: nat, meta: nat, ret: nat)
    requires ret < capacity && capacity * size + meta <= SlabSize
    ensures size * ret + meta + size <= SlabSize
  {
    MulMono(size, ret + 1, capacity);
  }

  lemma ObjectAddressInSlab(m: u64, end: u64, slab: u64, idx: nat, ret: u64)
    requires idx < NumSizeClasses
    requires slab % SlabSize == 0 && slab + SlabSize < Two64
    requires m <= slab && slab + SlabSize <= end
    requires ret < ObjSlabTraits(SizeClasses[idx]).capacity
    ensures var a := ObjectAddress(slab, idx, ret);
            slab + SizeIdxToMetaData[idx] <= a
            && a + SizeClasses[idx] <= slab + SlabSize
            && AddrToSlab(a) == slab
            && InRange(m, end, a)
  {
    ObjectOffsetFits(idx, ret);
    var off := SizeClasses[idx] * ret + SizeIdxToMetaData[idx];
    assert ObjectAddress(slab, idx, ret) == slab + off;
    AddrToSlabOfInside(slab, off);
  }

  /** The size index `_allocate` uses: of the rounded size, narrowed to uint32_t. */
  function AllocSizeIdx(size: u64): u32 {
    Wrap32(SizeToIdx(RoundSize(size)))
  }

  /**
   * Every request of 1..256 bytes is served from a class at least as large
   * as the request, and that class is the rounded size.
   */
  lemma AllocSizeIdxFits(size: u64)
    requires 1 <= size <= 256
    ensures AllocSizeIdx(size) < NumSizeClasses
    ensures SizeClasses[AllocSizeIdx(size)] == RoundSize(size) >= size
  {
    RoundedSizeHasClass(size);
  }

  /** Indexing by the raw size would undersize: 9 bytes would get the 8-byte class. */
  lemma RawSizeIndexUndersizes()
    ensures SizeClasses[SizeToIdx(9)] == 8
    ensures SizeClasses[AllocSizeIdx(9)] == 16
  {
  }
}
