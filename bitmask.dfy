/**
 * 64-bit masks as used by the allocator's bitmaps (the slot words of an
 * obj_slab, its vector words, a node_block's node_slots).  A mask is the set
 * of positions of its one bits, each below 64.  The instructions the sources
 * use on masks become set operations:
 *   tzcnt / bits::find_first_one  -> Lowest (64 for the zero mask)
 *   x & (x - 1)   (blsr)          -> ClearLowest
 *   x | (1 << i)                  -> m + {i}
 *   ~0, ((1 << k) - 1)            -> Full, LowBits(k)
 *   ~x                            -> Complement
 *   popcount                      -> |m|
 */
module Bitmask {

  const WordBits: nat := 64

  /** A bit position of a 64-bit word. */
  predicate IsBit(i: nat) {
    i < WordBits
  }

  /** A set of bit positions that fits a 64-bit word. */
  predicate IsMask(m: set<nat>) {
    forall i :: i in m ==> i < WordBits
  }

  /** `(1 << k) - 1`: the k low bits (all 64 once k >= 64). */
  function LowBits(k: nat): (m: set<nat>)
    ensures IsMask(m)
    ensures forall i: nat :: i in m <==> i < k && i < WordBits
  {
    if k > WordBits then LowBits(WordBits)
    else if k == 0 then {}
    else LowBits(k - 1) + {k - 1}
  }

  /** `~0`. */
  function Full(): (m: set<nat>)
    ensures IsMask(m) && forall i: nat :: i < WordBits ==> i in m
  {
    set i: nat | i < WordBits && IsBit(i)
  }

  /** `~m`. */
  function Complement(m: set<nat>): (c: set<nat>)
    ensures IsMask(c)
    ensures forall i: nat :: i < WordBits ==> (i in c <==> i !in m)
  {
    Full() - m
  }

  /** Scan for the first one bit at or above k. */
  function LowestFrom(m: set<nat>, k: nat): (i: nat)
    requires k <= WordBits
    ensures k <= i <= WordBits
    ensures i < WordBits ==> i in m
    ensures forall j :: k <= j < i ==> j !in m
    decreases WordBits - k
  {
    if k == WordBits then WordBits
    else if k in m then k
    else LowestFrom(m, k + 1)
  }

  /** tzcnt: the position of the lowest one bit, 64 for the zero mask. */
  function Lowest(m: set<nat>): (i: nat)
    requires IsMask(m)
    ensures i <= WordBits
    ensures m == {} <==> i == WordBits
    ensures m != {} ==> i in m && forall j :: j in m ==> i <= j
  {
    var i := LowestFrom(m, 0);
    assert i == WordBits ==> m == {} by {
      if i == WordBits {
        forall j | j in m ensures false { }
      }
    }
    i
  }

  /** blsr: `m & (m - 1)`, the mask without its lowest one bit. */
  function ClearLowest(m: set<nat>): (r: set<nat>)
    requires IsMask(m) && m != {}
    ensures IsMask(r) && r < m
    ensures r == m - {Lowest(m)} && |r| == |m| - 1
  {
    m - {Lowest(m)}
  }
}
