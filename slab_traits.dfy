/**
 * Slab layout of the object allocator: per size class, how many objects a
 * 32 KiB slab holds, how many 64-bit slot words track them, and how many
 * bytes of metadata precede them; together with the four compile-time checks
 * stamped out for every size in the catalogue, the size-class index and
 * rounding helpers, and the per-index constant tables.
 *
 * Every quantity is a uint64_t constant expression; the check expressions are
 * evaluated with uint64_t wrap-around, as the compiler evaluates them.
 */
module SlabTraits {
  import opened Machine

  const SlabSize: u64 := 32768

  /** Number of size classes served by the allocator header. */
  const NumSizeClasses: nat := 18

  const CacheLineSize: u64 := 64

  /** The L2 cache loads two cache lines at a time; the metadata rounding unit. */
  const L2CacheLoadSize: u64 := 2 * CacheLineSize

  /** The size classes, in index order. */
  const SizeClasses: seq<u64> :=
    [8, 16, 24, 32, 48, 64, 80, 96, 112, 128, 144, 160, 176, 192, 208, 224, 240, 256]

  /** Metadata bytes per size index. */
  const SizeIdxToMetaData: seq<u64> :=
    [1152, 768, 512, 512, 256, 256, 256, 256, 256, 256, 256, 256, 256, 256, 256, 256, 256, 256]

  /** Offset of the freeing bookkeeping per size index. */
  const SizeIdxToFreeOffset: seq<u64> :=
    [640, 384, 256, 256, 128, 128, 128, 128, 128, 128, 128, 128, 128, 128, 128, 128, 128, 128]

  /** Object capacity per size index, as tabulated. */
  const SizeIdxToCapacity: seq<u64> :=
    [3952, 2000, 1344, 1008, 677, 508, 406, 338, 290, 254, 225, 203, 184, 165, 156, 145, 135, 127]

  // ---------------------------------------------------------------------
  // Size classes: index and rounding
  // ---------------------------------------------------------------------

  /** The compile-time index of a chunk size. */
  function ConstevalSizeToIdx(chunkSize: u64): u64 {
    if chunkSize == 8 then 0
    else if chunkSize == 16 then 1
    else if chunkSize == 24 then 2
    else 1 + chunkSize / 16
  }

  /** The run-time index of a (rounded) size; below 8 the subtraction wraps. */
  function SizeToIdx(size: u64): u64 {
    if size < 32 then Wrap64(size / 8 - 1) else size / 16 + 1
  }

  /** Granularity of the size classes around a size. */
  function Granularity(size: u64): nat {
    if size < 32 then 8 else 16
  }

  /**
   * `(size + 7) & ~7` below 32 and `(size + 15) & ~15` from 32 on: the least
   * multiple of the granularity that is at least size, unless size + 15
   * overflows.
   */
  function RoundSize(size: u64): (r: u64)
    ensures size < Two64 - 15 ==>
              r % Granularity(size) == 0 && size <= r < size + Granularity(size)
  {
    if size < 32 then
      var x := size + 7; x - x % 8
    else
      var x := Wrap64(size + 15); x - x % 16
  }

  /** The size classes from index 3 on are 16 apart, starting at 32. */
  lemma SizeClassesFormula(i: nat)
    requires 3 <= i < NumSizeClasses
    ensures SizeClasses[i] == 16 * (i - 1)
  {
    assert i == 3 || i == 4 || i == 5 || i == 6 || i == 7 || i == 8 || i == 9 || i == 10
        || i == 11 || i == 12 || i == 13 || i == 14 || i == 15 || i == 16 || i == 17;
  }

  /** Both index functions invert the size-class table. */
  lemma SizeToIdxInvertsClasses(i: nat)
    requires i < NumSizeClasses
    ensures SizeToIdx(SizeClasses[i]) == i
    ensures ConstevalSizeToIdx(SizeClasses[i]) == i
  {
    if i >= 3 {
      SizeClassesFormula(i);
    }
  }

  /**
   * Every request of 1..256 bytes rounds to a size class: the index of the
   * rounded size is in range and names exactly the rounded size.
   */
  lemma RoundedSizeHasClass(size: u64)
    requires 1 <= size <= 256
    ensures SizeToIdx(RoundSize(size)) < NumSizeClasses as u64
    ensures SizeClasses[SizeToIdx(RoundSize(size))] == RoundSize(size)
  {
    var r := RoundSize(size);
    var i := SizeToIdx(r);
    if r >= 32 {
      assert 3 <= i < NumSizeClasses;
      SizeClassesFormula(i);
    }
  }

  /** Sizes below 8 have no class: the index wraps to the largest uint64_t. */
  lemma SizeToIdxWrapsBelowEight(size: u64)
    requires size < 8
    ensures SizeToIdx(size) == Two64 - 1
  {
  }

  // ---------------------------------------------------------------------
  // Per-size traits
  // ---------------------------------------------------------------------

  datatype Traits = Traits(capacity: u64, numSlotVecs: u64, metaDataSize: u64)

  /** The generic template: 256 bytes of metadata, the rest filled with chunks. */
  function GenericTraits(chunkSize: u64): Traits
    requires chunkSize > 0
  {
    var capacity := (SlabSize - 256) / chunkSize;
    Traits(capacity, (capacity + 63) / 64, 256)
  }

  /** obj_slab_traits<chunk_size>: four hard-coded sizes, the template for the rest. */
  function ObjSlabTraits(chunkSize: u64): Traits
    requires chunkSize > 0
  {
    if chunkSize == 8 then Traits(3952, 62, 1152)
    else if chunkSize == 16 then Traits(2000, 32, 768)
    else if chunkSize == 24 then Traits(1344, 21, 512)
    else if chunkSize == 32 then Traits(1008, 16, 512)
    else GenericTraits(chunkSize)
  }

  // ---------------------------------------------------------------------
  // The four static_assert checks, as uint64_t expressions
  // ---------------------------------------------------------------------

  /** Bytes used by the objects and the metadata. */
  function Used(size: u64, t: Traits): u64 {
    Wrap64(Wrap64(t.capacity * size) + t.metaDataSize)
  }

  /** 1. Objects plus metadata fit in the slab. */
  predicate FitAssert(size: u64, t: Traits) {
    Used(size, t) <= SlabSize
  }

  /** 2. Enough slot words for the capacity (floor division, as written). */
  predicate BitmapAssert(t: Traits) {
    t.capacity / 64 <= t.numSlotVecs
  }

  /** 3. One more object would not fit (unsigned subtraction). */
  predicate MaximalAssert(size: u64, t: Traits) {
    Wrap64(SlabSize - Used(size, t)) < size
  }

  /** The bytes of `words` 8-byte words rounded up to whole L2 cache loads. */
  function MetaRegion(words: u64): u64 {
    Wrap64(L2CacheLoadSize *
           (Wrap64((L2CacheLoadSize - 1) + Wrap64(8 * words)) / L2CacheLoadSize))
  }

  /** The metadata the layout needs: two separately rounded regions of 2 + n and 3 + n words. */
  function MetaNeeded(t: Traits): u64 {
    Wrap64(MetaRegion(Wrap64(2 + t.numSlotVecs)) + MetaRegion(Wrap64(3 + t.numSlotVecs)))
  }

  /** 4. The metadata covers both regions. */
  predicate MetadataAssert(t: Traits) {
    t.metaDataSize >= MetaNeeded(t)
  }

  predicate AllAsserts(size: u64, t: Traits) {
    FitAssert(size, t) && BitmapAssert(t) && MaximalAssert(size, t) && MetadataAssert(t)
  }

  // ---------------------------------------------------------------------
  // The checks hold
  // ---------------------------------------------------------------------

  /** The hard-coded sizes pass all four checks, and each fills the slab exactly. */
  lemma SpecialisedTraitsHold(size: u64)
    requires size in {8, 16, 24, 32}
    ensures AllAsserts(size, ObjSlabTraits(size))
    ensures Used(size, ObjSlabTraits(size)) == SlabSize
  {
    if size == 8 {
      SizeEightTraitsHold();
    } else if size == 16 {
      SizeSixteenTraitsHold();
    } else if size == 24 {
      SizeTwentyFourTraitsHold();
    } else {
      SizeThirtyTwoTraitsHold();
    }
  }

  lemma SizeEightTraitsHold()
    ensures AllAsserts(8, ObjSlabTraits(8)) && Used(8, ObjSlabTraits(8)) == SlabSize
  {
    var t := ObjSlabTraits(8);
    assert t == Traits(3952, 62, 1152);
    assert Used(8, t) == 3952 * 8 + 1152 == SlabSize;
    MetaRegionSmall(64);
    MetaRegionSmall(65);
    assert Wrap64(2 + t.numSlotVecs) == 64 && Wrap64(3 + t.numSlotVecs) == 65;
    assert MetaRegion(64) == 512 && MetaRegion(65) == 640;
    assert MetaNeeded(t) == 512 + 640;
  }

  lemma SizeSixteenTraitsHold()
    ensures AllAsserts(16, ObjSlabTraits(16)) && Used(16, ObjSlabTraits(16)) == SlabSize
  {
    var t := ObjSlabTraits(16);
    assert t == Traits(2000, 32, 768);
    assert Used(16, t) == 2000 * 16 + 768 == SlabSize;
    MetaRegionSmall(34);
    MetaRegionSmall(35);
    assert Wrap64(2 + t.numSlotVecs) == 34 && Wrap64(3 + t.numSlotVecs) == 35;
    assert MetaRegion(34) == 384 && MetaRegion(35) == 384;
    assert MetaNeeded(t) == 384 + 384;
  }

  lemma SizeTwentyFourTraitsHold()
    ensures AllAsserts(24, ObjSlabTraits(24)) && Used(24, ObjSlabTraits(24)) == SlabSize
  {
    var t := ObjSlabTraits(24);
    assert t == Traits(1344, 21, 512);
    assert Used(24, t) == 1344 * 24 + 512 == SlabSize;
    MetaRegionSmall(23);
    MetaRegionSmall(24);
    assert Wrap64(2 + t.numSlotVecs) == 23 && Wrap64(3 + t.numSlotVecs) == 24;
    assert MetaRegion(23) == 256 && MetaRegion(24) == 256;
    assert MetaNeeded(t) == 256 + 256;
  }

  lemma SizeThirtyTwoTraitsHold()
    ensures AllAsserts(32, ObjSlabTraits(32)) && Used(32, ObjSlabTraits(32)) == SlabSize
  {
    var t := ObjSlabTraits(32);
    assert t == Traits(1008, 16, 512);
    assert Used(32, t) == 1008 * 32 + 512 == SlabSize;
    MetaRegionSmall(18);
    MetaRegionSmall(19);
    assert Wrap64(2 + t.numSlotVecs) == 18 && Wrap64(3 + t.numSlotVecs) == 19;
    assert MetaRegion(18) == 256 && MetaRegion(19) == 256;
    assert MetaNeeded(t) == 256 + 256;
  }

  /** Size 8 needs exactly its 1152 metadata bytes: 512 + 640. */
  lemma SizeEightMetadataIsTight()
    ensures MetaRegion(64) == 512 && MetaRegion(65) == 640
    ensures MetaNeeded(ObjSlabTraits(8)) == ObjSlabTraits(8).metaDataSize
  {
  }

  /** Division facts for the generic capacity. */
  lemma GenericCapacityBounds(c: u64)
    requires c > 0
    ensures GenericTraits(c).capacity * c <= SlabSize - 256
    ensures SlabSize - 256 < GenericTraits(c).capacity * c + c
    ensures c >= 40 ==> GenericTraits(c).capacity <= 812
    ensures c < 40 ==> GenericTraits(c).capacity >= 833
  {
    var cap := GenericTraits(c).capacity;
    DivBounds(SlabSize - 256, c);
    if c >= 40 {
      MulMono(cap, 40, c);
    } else {
      MulMono(cap + 1, c, 39);
    }
  }

  /** The generic template's slot-word count is the ceiling of capacity / 64. */
  lemma GenericSlotVecsIsCeiling(c: u64)
    requires c > 0
    ensures 64 * GenericTraits(c).numSlotVecs >= GenericTraits(c).capacity
    ensures 64 * GenericTraits(c).numSlotVecs < GenericTraits(c).capacity + 64
  {
  }

  /** MetaRegion for small word counts, without wrap-around. */
  lemma MetaRegionSmall(words: u64)
    requires words <= 1000
    ensures MetaRegion(words) == 128 * ((127 + 8 * words) / 128)
  {
  }

  /**
   * The generic template passes all four checks exactly for chunk sizes of
   * 40 and more; below 40 its 256 metadata bytes are too few.
   */
  lemma GenericAssertsIff(c: u64)
    requires c > 0
    ensures AllAsserts(c, GenericTraits(c)) <==> c >= 40
    ensures c < 40 ==> !MetadataAssert(GenericTraits(c))
  {
    if c >= 40 {
      GenericLargeHold(c);
    } else {
      GenericSmallFails(c);
    }
  }

  /** From 40 bytes on, the generic template needs at most 13 slot words and one L2 load per region. */
  lemma GenericLargeHold(c: u64)
    requires c >= 40
    ensures AllAsserts(c, GenericTraits(c))
  {
    GenericCapacityBounds(c);
    var t := GenericTraits(c);
    assert Used(c, t) == t.capacity * c + 256;
    var n := t.numSlotVecs;
    assert n <= 13;
    MetaRegionSmall(2 + n);
    MetaRegionSmall(3 + n);
    assert (127 + 8 * (2 + n)) / 128 == 1 && (127 + 8 * (3 + n)) / 128 == 1;
    assert MetaNeeded(t) == 256;
  }

  /** Below 40 bytes the generic template needs at least 14 slot words, and 384 metadata bytes. */
  lemma GenericSmallFails(c: u64)
    requires 0 < c < 40
    ensures !MetadataAssert(GenericTraits(c))
  {
    GenericCapacityBounds(c);
    var t := GenericTraits(c);
    assert t.capacity <= 32512;
    var n := t.numSlotVecs;
    assert 14 <= n <= 509;
    MetaRegionSmall(2 + n);
    MetaRegionSmall(3 + n);
    assert (127 + 8 * (2 + n)) / 128 >= 1 && (127 + 8 * (3 + n)) / 128 >= 2;
    assert MetaNeeded(t) >= 384;
  }

  /** Every size class of the index tables passes all four checks. */
  lemma ClassTraitsHold(i: nat)
    requires i < NumSizeClasses
    ensures AllAsserts(SizeClasses[i], ObjSlabTraits(SizeClasses[i]))
  {
    var s := SizeClasses[i];
    if i < 4 {
      assert s in {8, 16, 24, 32};
      SpecialisedTraitsHold(s);
    } else {
      SizeClassesFormula(i);
      GenericAssertsIff(s);
    }
  }

  // ---------------------------------------------------------------------
  // The per-index tables against the traits
  // ---------------------------------------------------------------------

  /** The metadata table agrees with the traits for every size class. */
  lemma MetaDataTableAgrees(i: nat)
    requires i < NumSizeClasses
    ensures SizeIdxToMetaData[i] == ObjSlabTraits(SizeClasses[i]).metaDataSize
  {
    if i >= 4 {
      SizeClassesFormula(i);
    }
  }

  /** The capacity table agrees with the traits for every class except index 13. */
  lemma CapacityTableAgrees(i: nat)
    requires i < NumSizeClasses && i != 13
    ensures SizeIdxToCapacity[i] == ObjSlabTraits(SizeClasses[i]).capacity
  {
    assert i == 0 || i == 1 || i == 2 || i == 3 || i == 4 || i == 5 || i == 6 || i == 7 || i == 8
        || i == 9 || i == 10 || i == 11 || i == 12 || i == 14 || i == 15 || i == 16 || i == 17;
  }

  /**
   * At index 13 (size 192) the table holds 165 while the template gives 169;
   * the tabulated capacity would fail the maximality check.
   */
  lemma CapacityTableDisagreesAt192()
    ensures SizeClasses[13] == 192
    ensures SizeIdxToCapacity[13] == 165 && ObjSlabTraits(192).capacity == 169
    ensures !MaximalAssert(192, Traits(SizeIdxToCapacity[13], ObjSlabTraits(192).numSlotVecs,
                                      ObjSlabTraits(192).metaDataSize))
  {
  }
}
