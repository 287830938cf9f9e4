/**
 * The eleven-class size table of the allocator's older size-class header and
 * its uint32_t helpers: index of a size, size of an index, rounding up to a
 * class, and the branch-reduced variants.  All arithmetic is uint32_t, so
 * the additions wrap near 2^32 and `- 1` wraps at zero.
 */
module SlabSizeClasses {
  import opened Machine

  const NumSizeClasses: nat := 11

  const SlabSizes: seq<u32> := [8, 16, 24, 32, 48, 64, 80, 96, 112, 128, 144]

  /** `slab_sizes[idx]`; an index past the table is undefined behaviour. */
  function IdxToSize(idx: u32): (s: u32)
    requires idx < NumSizeClasses as u32
    ensures s in SlabSizes
  {
    SlabSizes[idx]
  }

  /** Granularity of the classes around a size: 8 up to 24, 16 above. */
  function Granularity(size: u32): nat {
    if size <= 24 then 8 else 16
  }

  /** `(size <= 24) ? ((size + 7) / 8) - 1 : ((size + 15) / 16) + 1`. */
  function SizeToIdx(size: u32): u32 {
    if size <= 24 then Wrap32((size + 7) / 8 - 1) else Wrap32(Wrap32(size + 15) / 16 + 1)
  }

  /** The `_nb` form: a shift by base 3 or 4, and `2 * (base / 2) - 3` added. */
  function SizeToIdxNb(size: u32): u32 {
    var base: nat := if size > 24 then 4 else 3;
    var shift: nat := if base == 3 then 8 else 16;   // 1 << base
    Wrap32(Wrap32(Wrap32(size + (shift - 1)) / shift + 2 * (base / 2)) - 3)
  }

  /** `(size + 7) & ~7` up to 24, `(size + 15) & ~15` above. */
  function RoundSize(size: u32): (r: u32)
    ensures size < Two32 - 15 ==>
              r % Granularity(size) == 0 && size <= r < size + Granularity(size)
  {
    if size <= 24 then
      var x := size + 7; x - x % 8
    else
      var x := Wrap32(size + 15); x - x % 16
  }

  /** `size & ~(base - 1)` with base 8 up to 24 and 16 above. */
  function RoundSizeNb(size: u32): (r: u32)
    ensures r % Granularity(size) == 0 && r <= size < r + Granularity(size)
  {
    if size <= 24 then size - size % 8 else size - size % 16
  }

  /** The branch-reduced index agrees with the plain one on every uint32_t, 0 included. */
  lemma SizeToIdxNbAgrees(size: u32)
    ensures SizeToIdxNb(size) == SizeToIdx(size)
    ensures size == 0 ==> SizeToIdx(size) == Two32 - 1
  {
    if size > 24 {
      var q := Wrap32(size + 15) / 16;
      assert q + 1 < Two32;
      assert SizeToIdxNb(size) == q + 1;
    }
  }

  lemma SlabSizesFormula(i: nat)
    requires 3 <= i < NumSizeClasses
    ensures SlabSizes[i] == 16 * (i - 1)
  {
    assert i == 3 || i == 4 || i == 5 || i == 6 || i == 7 || i == 8 || i == 9 || i == 10;
  }

  /** Round trip: the index of each tabulated size is its position. */
  lemma SizeToIdxOfTable(i: nat)
    requires i < NumSizeClasses
    ensures SizeToIdx(SlabSizes[i]) == i
    ensures IdxToSize(SizeToIdx(SlabSizes[i])) == SlabSizes[i]
  {
    if i >= 3 {
      SlabSizesFormula(i);
    }
  }

  /**
   * Every size of 1..144 bytes has a class: its index is in the table, and
   * the class size is the size rounded up.
   */
  lemma SizeToIdxInRange(size: u32)
    requires 1 <= size <= 144
    ensures SizeToIdx(size) < NumSizeClasses as u32
    ensures IdxToSize(SizeToIdx(size)) == RoundSize(size)
  {
    var i := SizeToIdx(size);
    if size > 24 {
      assert 3 <= i < NumSizeClasses;
      SlabSizesFormula(i);
    }
  }

  /**
   * The `_nb` rounding rounds down, not up: it agrees with RoundSize exactly
   * on the sizes that are already multiples of the granularity.
   */
  lemma RoundSizeNbRoundsDown(size: u32)
    requires size < Two32 - 15
    ensures RoundSizeNb(size) == RoundSize(size) <==> size % Granularity(size) == 0
  {
  }

  /** A concrete witness: 9 rounds up to 16 but down to 8. */
  lemma RoundSizeNbDiffersAtNine()
    ensures RoundSize(9) == 16 && RoundSizeNb(9) == 8
  {
  }
}
