/**
 * One slab of equally sized objects and its two-level bitmaps, on one core
 * at a time.  A set bit of `availableSlots[v]` is a free object at position
 * 64 * v + bit, and bit v of `availableVecs` says that word v may still
 * hold free objects; frees by other cores are collected in `freedSlots` and
 * `freedVecs` until the owner reclaims them.  Every 64-bit word is a mask
 * (a set of bit positions below 64).
 *
 * The restartable per-CPU sequence of the allocation path is modelled by its
 * sequential meaning: no migration happens, so MIGRATED is never returned.
 */
module ObjSlabs {
  import opened Bitmask
  import Machine

  const VecSize: nat := 64
  const NumVecs: nat := 64
  const Capacity: nat := NumVecs * VecSize
  const PayloadSize: nat := Capacity * 8
  const PayloadOffset: nat := 1280

  const Owned: nat := 0
  const Unowned: nat := 1

  /** Results of `_allocate` at and above the capacity. */
  const Migrated: nat := Capacity
  const FullSlab: nat := Capacity + 1
  const SuccessBound: nat := Migrated

  // ---------------------------------------------------------------------
  // Rows of slot words and the positions they mark
  // ---------------------------------------------------------------------

  /** The object positions a row of slot words marks: 64 * v + b for bit b of word v. */
  ghost function Held(s: seq<set<nat>>): set<nat> {
    set v, b | 0 <= v < |s| && b in s[v] :: 64 * v + b
  }

  ghost predicate AllMasks(s: seq<set<nat>>) {
    forall v :: 0 <= v < |s| ==> IsMask(s[v])
  }

  /** A position is held iff its bit is set in its word. */
  lemma HeldMember(s: seq<set<nat>>, p: nat)
    requires AllMasks(s)
    ensures p in Held(s) <==> p / 64 < |s| && p % 64 in s[p / 64]
  {
    if p in Held(s) {
      var v, b :| 0 <= v < |s| && b in s[v] && p == 64 * v + b;
      assert b < 64;
      assert p / 64 == v && p % 64 == b;
    }
    if p / 64 < |s| && p % 64 in s[p / 64] {
      assert p == 64 * (p / 64) + p % 64;
    }
  }

  /** Clearing bit b of word v removes exactly position 64 * v + b. */
  lemma HeldRemove(s: seq<set<nat>>, v: nat, b: nat)
    requires AllMasks(s) && v < |s| && b in s[v]
    ensures AllMasks(s[v := s[v] - {b}])
    ensures Held(s[v := s[v] - {b}]) == Held(s) - {64 * v + b}
  {
    var t := s[v := s[v] - {b}];
    forall p: nat ensures p in Held(t) <==> p in Held(s) - {64 * v + b} {
      HeldMember(s, p);
      HeldMember(t, p);
      if p == 64 * v + b {
        assert p / 64 == v && p % 64 == b;
      }
    }
  }

  /** Setting bit b of word v adds exactly position 64 * v + b. */
  lemma HeldAdd(s: seq<set<nat>>, v: nat, b: nat)
    requires AllMasks(s) && v < |s| && b < 64
    ensures AllMasks(s[v := s[v] + {b}])
    ensures Held(s[v := s[v] + {b}]) == Held(s) + {64 * v + b}
  {
    var t := s[v := s[v] + {b}];
    forall p: nat ensures p in Held(t) <==> p in Held(s) + {64 * v + b} {
      HeldMember(s, p);
      HeldMember(t, p);
      if p == 64 * v + b {
        assert p / 64 == v && p % 64 == b;
      }
    }
  }

  /** Rows of empty words hold nothing. */
  lemma HeldEmpty(s: seq<set<nat>>)
    requires forall v :: 0 <= v < |s| ==> s[v] == {}
    ensures Held(s) == {}
  {
  }

  /** The positions below n. */
  function Below(n: nat): (r: set<nat>)
    ensures forall p: nat :: p in r <==> p < n
    ensures |r| == n
  {
    if n == 0 then {} else Below(n - 1) + {n - 1}
  }

  /** 64 empty words. */
  function EmptyWords(): (s: seq<set<nat>>)
    ensures |s| == NumVecs && forall v :: 0 <= v < |s| ==> s[v] == {}
  {
    seq(NumVecs, _ => {})
  }

  // ---------------------------------------------------------------------
  // The bitmap invariants and the steps of the operations, on values
  // ---------------------------------------------------------------------

  /** The allocation words: masks, and a word whose vector bit is clear is empty. */
  ghost predicate AvailOk(vecs: set<nat>, slots: seq<set<nat>>) {
    |slots| == NumVecs && IsMask(vecs) && AllMasks(slots)
    && forall v :: 0 <= v < NumVecs && v !in vecs ==> slots[v] == {}
  }

  /** The freeing words: masks, and a vector bit is set exactly for the non-empty words. */
  ghost predicate FreedOk(vecs: set<nat>, slots: seq<set<nat>>) {
    |slots| == NumVecs && IsMask(vecs) && AllMasks(slots)
    && forall v :: 0 <= v < NumVecs ==> (v in vecs <==> slots[v] != {})
  }

  /** With no vector bit left nothing is available. */
  lemma NoVecsNothingHeld(slots: seq<set<nat>>)
    requires AvailOk({}, slots)
    ensures Held(slots) == {}
  {
    HeldEmpty(slots);
  }

  /** Dropping the vector bit of an empty word keeps the allocation words consistent. */
  lemma DropEmptyVec(vecs: set<nat>, slots: seq<set<nat>>)
    requires AvailOk(vecs, slots) && vecs != {} && slots[Lowest(vecs)] == {}
    ensures AvailOk(ClearLowest(vecs), slots)
  {
  }

  /**
   * The lowest bit of the word of the lowest vector bit, when that word is
   * not empty, is the lowest available position; clearing it removes just
   * that position.
   */
  lemma TakeLowest(vecs: set<nat>, slots: seq<set<nat>>, v: nat, b: nat)
    requires AvailOk(vecs, slots) && vecs != {} && v == Lowest(vecs)
    requires slots[v] != {} && b == Lowest(slots[v])
    ensures 64 * v + b < Capacity && 64 * v + b in Held(slots)
    ensures forall q :: q in Held(slots) ==> 64 * v + b <= q
    ensures AvailOk(vecs, slots[v := slots[v] - {b}])
    ensures Held(slots[v := slots[v] - {b}]) == Held(slots) - {64 * v + b}
  {
    PositionBelow(v, b);
    HeldAt(slots, v, b);
    TakeLowestFirst(vecs, slots, 64 * v + b);
    HeldRemove(slots, v, b);
    ClearBitAvailOk(vecs, slots, v, b);
  }

  /** Clearing a bit keeps the allocation words consistent. */
  lemma ClearBitAvailOk(vecs: set<nat>, slots: seq<set<nat>>, v: nat, b: nat)
    requires AvailOk(vecs, slots) && v < |slots|
    ensures AvailOk(vecs, slots[v := slots[v] - {b}])
  {
  }

  /** A set bit of a word is a held position. */
  lemma HeldAt(s: seq<set<nat>>, v: nat, b: nat)
    requires v < |s| && b in s[v]
    ensures 64 * v + b in Held(s)
  {
  }

  /** Position 64 * v + b of word v, bit b, is within the slab. */
  lemma PositionBelow(v: nat, b: nat)
    requires v < NumVecs && b < VecSize
    ensures 64 * v + b < Capacity
  {
  }

  /** The lowest bit of the lowest word with a vector bit is the lowest available position. */
  lemma TakeLowestFirst(vecs: set<nat>, slots: seq<set<nat>>, r: nat)
    requires AvailOk(vecs, slots) && vecs != {} && slots[Lowest(vecs)] != {}
    requires r == 64 * Lowest(vecs) + Lowest(slots[Lowest(vecs)])
    ensures forall q :: q in Held(slots) ==> r <= q
  {
    forall q | q in Held(slots) ensures r <= q {
      HeldMember(slots, q);
      assert slots[q / 64] != {};
      assert q / 64 in vecs;
    }
  }

  /** Recording a free of position p in the freeing words. */
  lemma RecordFree(vecs: set<nat>, slots: seq<set<nat>>, p: nat)
    requires FreedOk(vecs, slots) && p < Capacity
    ensures FreedOk(vecs + {p / 64}, slots[p / 64 := slots[p / 64] + {p % 64}])
    ensures Held(slots[p / 64 := slots[p / 64] + {p % 64}]) == Held(slots) + {p}
    ensures slots[p / 64] != {} ==> vecs + {p / 64} == vecs
  {
    HeldAdd(slots, p / 64, p % 64);
  }

  /**
   * Reclaiming into a full slab: the freed words with the freed vector bits
   * are consistent allocation words, and the full slab held nothing.
   */
  lemma Reclaim(avail: seq<set<nat>>, vecs: set<nat>, freed: seq<set<nat>>)
    requires AvailOk({}, avail) && FreedOk(vecs, freed)
    ensures AvailOk(vecs, freed)
    ensures Held(avail) == {}
  {
    HeldEmpty(avail);
  }

  /**
   * The block holding the byte at addrMinusStart from the slab: its index
   * is below the capacity and the byte lies within that block.
   */
  function Position(addrMinusStart: nat, blockSize: nat): (pos: nat)
    requires 8 <= blockSize
    requires PayloadOffset <= addrMinusStart < PayloadOffset + PayloadSize
    ensures pos < Capacity
    ensures PayloadOffset + pos * blockSize <= addrMinusStart < PayloadOffset + pos * blockSize + blockSize
  {
    var x := addrMinusStart - PayloadOffset;
    Machine.DivBounds(x, blockSize);
    Machine.MulMono(x / blockSize, 8, blockSize);
    x / blockSize
  }

  /** The initial words hold exactly the first nblocks positions. */
  lemma InitialWords(nblocks: nat, slots: seq<set<nat>>)
    requires 1 <= nblocks <= Capacity && |slots| == NumVecs
    requires forall v :: 0 <= v < (nblocks + 63) / 64 - 1 ==> slots[v] == Full()
    requires slots[(nblocks + 63) / 64 - 1] ==
               (if nblocks % 64 != 0 then LowBits(nblocks % 64) else Full())
    requires forall v :: (nblocks + 63) / 64 <= v < NumVecs ==> slots[v] == {}
    ensures AvailOk(LowBits((nblocks + 63) / 64), slots)
    ensures Held(slots) == Below(nblocks)
  {
    var nslots := (nblocks + 63) / 64;
    assert AllMasks(slots) by {
      forall v | 0 <= v < |slots| ensures IsMask(slots[v]) {
        if v < nslots - 1 {
        } else if v == nslots - 1 {
        } else {
        }
      }
    }
    forall p: nat ensures p in Held(slots) <==> p < nblocks {
      HeldMember(slots, p);
      InitialWordAt(nblocks, slots, p);
    }
  }

  /** Position p is set in the initial words exactly when p < nblocks. */
  lemma InitialWordAt(nblocks: nat, slots: seq<set<nat>>, p: nat)
    requires 1 <= nblocks <= Capacity && |slots| == NumVecs
    requires forall v :: 0 <= v < (nblocks + 63) / 64 - 1 ==> slots[v] == Full()
    requires slots[(nblocks + 63) / 64 - 1] ==
               (if nblocks % 64 != 0 then LowBits(nblocks % 64) else Full())
    requires forall v :: (nblocks + 63) / 64 <= v < NumVecs ==> slots[v] == {}
    ensures p / 64 < |slots| && p % 64 in slots[p / 64] <==> p < nblocks
  {
    var nslots := (nblocks + 63) / 64;
    var v := p / 64;
    var b := p % 64;
    assert p == 64 * v + b;
    assert nblocks == 64 * (nblocks / 64) + nblocks % 64;
    if nblocks % 64 == 0 {
      assert nslots == nblocks / 64;
    } else {
      assert nslots == nblocks / 64 + 1;
    }
  }

  /** Zeroed slot words: nothing freed, no vector bit. */
  method EmptySlotWords() returns (slots: array<set<nat>>)
    ensures fresh(slots) && slots.Length == NumVecs
    ensures FreedOk({}, slots[..]) && Held(slots[..]) == {}
  {
    slots := new set<nat>[NumVecs](_ => {});
    assert forall v :: 0 <= v < NumVecs ==> slots[v] == {};
    HeldEmpty(slots[..]);
  }

  /** `PAYLOAD_SIZE / block_size`: the objects a slab of blockSize-byte objects holds, at least one and at most the capacity. */
  function SlabBlocks(blockSize: nat): (n: nat)
    requires 8 <= blockSize <= PayloadSize
    ensures 1 <= n <= Capacity && n == PayloadSize / blockSize
  {
    var n := PayloadSize / blockSize;
    Machine.DivBounds(PayloadSize, blockSize);
    Machine.MulMono(n, 8, blockSize);
    n
  }

  /** The slot words of a fresh slab holding nblocks objects. */
  method InitialSlotWords(nblocks: nat) returns (slots: array<set<nat>>)
    requires 1 <= nblocks <= Capacity
    ensures fresh(slots) && slots.Length == NumVecs
    ensures var nslots := (nblocks + 63) / 64;
            && (forall v :: 0 <= v < nslots - 1 ==> slots[v] == Full())
            && slots[nslots - 1] == (if nblocks % 64 != 0 then LowBits(nblocks % 64) else Full())
    ensures AvailOk(LowBits((nblocks + 63) / 64), slots[..])
    ensures Held(slots[..]) == Below(nblocks)
  {
    var nslots := (nblocks + 63) / 64;
    slots := new set<nat>[NumVecs](_ => {});
    forall v | 0 <= v < nslots - 1 {
      slots[v] := Full();
    }
    if nblocks % 64 != 0 {
      slots[nslots - 1] := LowBits(nblocks % 64);
    } else {
      slots[nslots - 1] := Full();
    }
    InitialWords(nblocks, slots[..]);
  }

  // ---------------------------------------------------------------------
  // The slab
  // ---------------------------------------------------------------------

  class ObjSlab {
    var availableVecs: set<nat>
    const availableSlots: array<set<nat>>
    var freedVecs: set<nat>
    var state: nat
    const freedSlots: array<set<nat>>
    const blockSize: nat

    /** The objects the owner may hand out. */
    ghost function Available(): set<nat>
      reads availableSlots
    {
      Held(availableSlots[..])
    }

    /** The objects freed since the last reclaim. */
    ghost function Freed(): set<nat>
      reads freedSlots
    {
      Held(freedSlots[..])
    }

    ghost predicate Valid()
      reads this, availableSlots, freedSlots
    {
      availableSlots.Length == NumVecs && freedSlots.Length == NumVecs
      && availableSlots != freedSlots
      && 8 <= blockSize <= PayloadSize
      && AvailOk(availableVecs, availableSlots[..])
      && FreedOk(freedVecs, freedSlots[..])
      && (state == Owned || state == Unowned)
    }

    /**
     * A fresh slab for objects of blockSize bytes: the low nslots vector bits,
     * all slot words before the last full, and the last word holding the
     * remaining nblocks % 64 objects (all 64 when that is 0), so exactly the
     * first nblocks positions are available.  The freeing half and the state
     * start zeroed, as the slab memory is.
     */
    constructor (blockSize: nat)
      requires 8 <= blockSize <= PayloadSize
      ensures Valid() && fresh(availableSlots) && fresh(freedSlots)
      ensures this.blockSize == blockSize
      ensures var nblocks := SlabBlocks(blockSize);
              var nslots := (nblocks + 63) / 64;
              availableVecs == LowBits(nslots)
              && (forall v :: 0 <= v < nslots - 1 ==> availableSlots[v] == Full())
              && availableSlots[nslots - 1] ==
                   (if nblocks % 64 != 0 then LowBits(nblocks % 64) else Full())
              && Available() == Below(nblocks) && |Available()| == nblocks
      ensures Freed() == {} && freedVecs == {} && state == Owned
    {
      var nblocks := SlabBlocks(blockSize);
      var nslots := (nblocks + 63) / 64;
      var slots := InitialSlotWords(nblocks);
      var freed := EmptySlotWords();
      this.blockSize := blockSize;
      availableVecs := LowBits(nslots);
      availableSlots := slots;
      freedVecs := {};
      state := Owned;
      freedSlots := freed;
    }

    /**
     * Take the lowest available object: vector words found empty are dropped
     * from `availableVecs` on the way; the object's bit is cleared from its
     * word.  FULL when nothing is available.
     */
    method Allocate() returns (r: nat)
      requires Valid()
      modifies this, availableSlots
      ensures Valid()
      ensures r == FullSlab <==> old(Available()) == {}
      ensures r != FullSlab ==>
                r < SuccessBound && r in old(Available())
                && (forall q :: q in old(Available()) ==> r <= q)
                && Available() == old(Available()) - {r}
      ensures r == FullSlab ==> Available() == old(Available())
      ensures availableVecs <= old(availableVecs)
      ensures freedVecs == old(freedVecs) && state == old(state)
    {
      var tempAv := availableVecs;
      while true
        invariant Valid()
        invariant tempAv == availableVecs && tempAv <= old(availableVecs)
        invariant availableSlots[..] == old(availableSlots[..])
        invariant freedVecs == old(freedVecs) && state == old(state)
        decreases |tempAv|
      {
        if tempAv == {} {
          NoVecsNothingHeld(availableSlots[..]);
          return FullSlab;
        }
        var v := Lowest(tempAv);
        var w := availableSlots[v];
        if w == {} {
          DropEmptyVec(tempAv, availableSlots[..]);
          tempAv := ClearLowest(tempAv);
          availableVecs := tempAv;
        } else {
          r := TakeFirst();
          return;
        }
      }
    }

    /** The taking step of `_allocate`: the lowest bit of the lowest vector's word. */
    method TakeFirst() returns (r: nat)
      requires Valid() && availableVecs != {} && availableSlots[Lowest(availableVecs)] != {}
      modifies availableSlots
      ensures Valid()
      ensures r < SuccessBound && r in old(Available())
      ensures forall q :: q in old(Available()) ==> r <= q
      ensures Available() == old(Available()) - {r}
    {
      var v := Lowest(availableVecs);
      var w := availableSlots[v];
      var b := Lowest(w);
      ghost var s0 := availableSlots[..];
      TakeLowest(availableVecs, s0, v, b);
      availableSlots[v] := ClearLowest(w);
      assert availableSlots[..] == s0[v := w - {b}];
      r := v * 64 + b;
    }

    /**
     * Record the free of the object at addrMinusStart bytes from the slab:
     * set its bit in its freed word, and on the first free into that word
     * also its vector bit.  Returns 1 exactly for a first free into a word
     * of an unowned slab, which the freeing core then claims.
     */
    method Free(addrMinusStart: nat) returns (r: nat)
      requires Valid()
      requires PayloadOffset <= addrMinusStart < PayloadOffset + PayloadSize
      modifies this, freedSlots
      ensures Valid()
      ensures var pos := Position(addrMinusStart, blockSize);
              Freed() == old(Freed()) + {pos}
              && freedVecs == old(freedVecs) + {pos / 64}
              && (r == 1 <==> old(freedSlots[pos / 64]) == {} && state == Unowned)
              && (r == 0 || r == 1)
      ensures availableVecs == old(availableVecs) && state == old(state)
    {
      var position := Position(addrMinusStart, blockSize);
      var vecIdx := position / NumVecs;
      var slotIdx := position % VecSize;
      ghost var before := freedSlots[..];
      RecordFree(freedVecs, before, position);
      if freedSlots[vecIdx] != {} {
        freedSlots[vecIdx] := freedSlots[vecIdx] + {slotIdx};
        r := 0;
      } else {
        freedSlots[vecIdx] := freedSlots[vecIdx] + {slotIdx};
        freedVecs := freedVecs + {vecIdx};
        r := if state == Unowned then 1 else 0;
      }
      assert freedSlots[..] == before[vecIdx := before[vecIdx] + {slotIdx}];
    }

    /**
     * Called by the owner once the slab is full.  With nothing freed the slab
     * becomes unowned (returns 1).  Otherwise every non-empty freed word moves
     * into its available word, in ascending vector order, the freed bitmaps
     * are cleared, and the freed vector bits become the available ones
     * (returns 0).
     */
    method TryRelease() returns (r: nat)
      requires Valid() && availableVecs == {}
      modifies this, availableSlots, freedSlots
      ensures Valid()
      ensures r == 1 <==> old(freedVecs) == {}
      ensures r == 1 ==> state == Unowned && Available() == {} && Freed() == {}
                         && availableVecs == {} && freedVecs == {}
      ensures r == 0 ==> state == old(state) && availableVecs == old(freedVecs) && freedVecs == {}
                         && Available() == old(Freed()) && Freed() == {}
      ensures r == 0 || r == 1
    {
      ghost var avail0 := availableSlots[..];
      ghost var freed0 := freedSlots[..];
      Reclaim(avail0, freedVecs, freed0);
      var reclaimedVecs := freedVecs;
      if reclaimedVecs == {} {
        HeldEmpty(freed0);
        state := Unowned;
        return 1;
      }
      freedVecs := freedVecs - reclaimedVecs;
      MoveWords(reclaimedVecs);
      availableVecs := reclaimedVecs;
      assert availableSlots[..] == freed0;
      assert forall v :: 0 <= v < NumVecs ==> freedSlots[v] == {};
      HeldEmpty(freedSlots[..]);
      return 0;
    }

    /** The do-while loop of `_try_release`. */
    method MoveWords(reclaimedVecs: set<nat>)
      requires availableSlots.Length == NumVecs && freedSlots.Length == NumVecs
      requires availableSlots != freedSlots && IsMask(reclaimedVecs)
      requires forall v :: 0 <= v < NumVecs ==> availableSlots[v] == {}
      requires forall v :: 0 <= v < NumVecs && v !in reclaimedVecs ==> freedSlots[v] == {}
      modifies availableSlots, freedSlots
      ensures forall v :: 0 <= v < NumVecs ==> availableSlots[v] == old(freedSlots[v]) && freedSlots[v] == {}
    {
      ghost var freed0 := freedSlots[..];
      var indexIterator := reclaimedVecs;
      while indexIterator != {}
        invariant indexIterator <= reclaimedVecs
        invariant forall v :: 0 <= v < NumVecs ==>
                    availableSlots[v] == (if v in indexIterator then {} else freed0[v])
        invariant forall v :: 0 <= v < NumVecs ==>
                    freedSlots[v] == (if v in indexIterator then freed0[v] else {})
        decreases |indexIterator|
      {
        var idx := Lowest(indexIterator);
        indexIterator := ClearLowest(indexIterator);
        var reclaimedSlots := freedSlots[idx];
        freedSlots[idx] := freedSlots[idx] - reclaimedSlots;
        availableSlots[idx] := reclaimedSlots;
      }
    }

    /** `_set_owned`: clear bit 0 of the state and return its previous value. */
    method SetOwned() returns (r: nat)
      requires Valid()
      modifies this
      ensures Valid()
      ensures r == old(state) % 2 && state == old(state) - old(state) % 2
      ensures state == Owned
      ensures availableVecs == old(availableVecs) && freedVecs == old(freedVecs)
    {
      r := state % 2;
      state := state - state % 2;
    }
  }

  /**
   * Allocations with no free in between never hand out the same object
   * twice: every successful result is distinct and was available at the start.
   */
  method AllocateSeveral(s: ObjSlab, n: nat) returns (got: seq<nat>)
    requires s.Valid()
    modifies s, s.availableSlots
    ensures s.Valid()
    ensures forall i :: 0 <= i < |got| ==> got[i] in old(s.Available())
    ensures forall i, j :: 0 <= i < j < |got| ==> got[i] != got[j]
    ensures s.Available() == old(s.Available()) - (set x | x in got)
  {
    got := [];
    var k := 0;
    while k < n
      invariant s.Valid()
      invariant forall i :: 0 <= i < |got| ==> got[i] in old(s.Available())
      invariant forall i, j :: 0 <= i < j < |got| ==> got[i] != got[j]
      invariant s.Available() == old(s.Available()) - (set x | x in got)
    {
      var r := s.Allocate();
      if r != FullSlab {
        assert (set x | x in got + [r]) == (set x | x in got) + {r};
        got := got + [r];
      }
      k := k + 1;
    }
  }
}
