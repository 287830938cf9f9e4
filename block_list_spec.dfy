/**
 * The block list of lib/container/block_list.h seen as a value: the blocks
 * on `iter_list` in list order, the blocks on `available_list` in list
 * order, and the `node_slots` word of every listed block (a one bit is a
 * free slot).  An object stored in the list is named by its block and its
 * slot index.  The operations of the list are functions on this state; the
 * classes in block_list.dfy are proved to follow them.
 */
module BlockListSpec {
  import opened Machine
  import opened Bitmask

  predicate Distinct<B(==)>(s: seq<B>) {
    forall i, j :: 0 <= i < j < |s| ==> s[i] != s[j]
  }

  datatype ListState<B(==)> = ListState(iters: seq<B>, avail: seq<B>, slots: map<B, set<nat>>)

  /** `zero()`: both lists empty. */
  function Empty<B(==)>(): (st: ListState<B>)
    ensures st.iters == [] && st.avail == [] && st.slots == map[]
  {
    ListState([], [], map[])
  }

  /** Each list holds a block at most once, and exactly the listed blocks have a word. */
  predicate WellFormed<B(==)>(st: ListState<B>) {
    && Distinct(st.iters) && Distinct(st.avail)
    && (forall b :: b in st.slots ==> b in st.iters || b in st.avail)
    && (forall b :: b in st.iters ==> b in st.slots)
    && (forall b :: b in st.avail ==> b in st.slots)
    && (forall b :: b in st.slots ==> IsMask(st.slots[b]))
  }

  /**
   * The invariant the list keeps:
   *  - every available block has a free slot (the first assert of `check()`);
   *  - every block on the iter list holds at least one object;
   *  - an iter-list block with a free slot is available;
   *  - an available block off the iter list is entirely free, and there is at
   *    most one of them (the block `remove` keeps when it is the only
   *    available one).
   */
  predicate Inv<B(==)>(st: ListState<B>) {
    && WellFormed(st)
    && (forall b :: b in st.avail ==> st.slots[b] != {})
    && (forall b :: b in st.iters ==> st.slots[b] != Full())
    && (forall b :: b in st.iters && st.slots[b] != {} ==> b in st.avail)
    && (forall b :: b in st.avail && b !in st.iters ==> st.slots[b] == Full())
    && (forall b, c :: b in st.avail && b !in st.iters && c in st.avail && c !in st.iters ==> b == c)
  }

  /** The objects reachable through the iter list: (block, slot) for every used slot. */
  function Objects<B(==)>(st: ListState<B>): (os: set<(B, nat)>)
    ensures forall p :: p in os ==> p.0 in st.iters && p.0 in st.slots && p.1 < WordBits && p.1 !in st.slots[p.0]
    ensures forall b, i: nat :: b in st.iters && b in st.slots && i < WordBits && i !in st.slots[b] ==> (b, i) in os
  {
    set b, i: nat | b in st.iters && b in st.slots && i < WordBits && i !in st.slots[b] :: (b, i)
  }

  /** The objects of block b whose slots are in mask. */
  function Slots<B(==)>(b: B, mask: set<nat>): (os: set<(B, nat)>)
    ensures forall p :: p in os ==> p.0 == b && p.1 in mask
    ensures forall i :: i in mask ==> (b, i) in os
  {
    set i | i in mask :: (b, i)
  }

  // ---------------------------------------------------------------------
  // Sequences of blocks
  // ---------------------------------------------------------------------

  function IndexOf<B(==)>(s: seq<B>, x: B): (k: nat)
    requires x in s
    ensures k < |s| && s[k] == x && x !in s[..k]
  {
    if s[0] == x then 0 else 1 + IndexOf(s[1..], x)
  }

  /** The list with (the first occurrence of) x spliced out. */
  function Unlisted<B(==)>(s: seq<B>, x: B): (r: seq<B>)
    ensures forall y :: y in r ==> y in s
    ensures forall y :: y in s && y != x ==> y in r
    ensures Distinct(s) ==> Distinct(r) && x !in r
    ensures x in s ==> |r| == |s| - 1
    ensures x !in s ==> r == s
  {
    if x in s then
      var k := IndexOf(s, x);
      assert s == s[..k] + [s[k]] + s[k + 1..];
      assert forall y :: y in s[..k] + s[k + 1..] ==> y in s;
      s[..k] + s[k + 1..]
    else s
  }

  lemma {:induction false} DistinctCard<B>(s: seq<B>)
    requires Distinct(s)
    ensures |set x | x in s| == |s|
  {
    if s != [] {
      DistinctCard(s[1..]);
      var t := set x | x in s[1..];
      assert (set x | x in s) == t + {s[0]};
      assert s[0] !in t;
    }
  }

  lemma SameSet<T>(x: set<T>, y: set<T>)
    requires forall p :: p in x ==> p in y
    requires forall p :: p in y ==> p in x
    ensures x == y
  {
  }

  // ---------------------------------------------------------------------
  // _insert
  // ---------------------------------------------------------------------

  /** `init()`: `node_slots = ~1`, slot 0 taken and slots 1..63 free. */
  function InitSlots(): (m: set<nat>)
    ensures IsMask(m) && m != {} && m != Full()
    ensures forall i: nat :: i < WordBits ==> (i in m <==> i != 0)
  {
    assert 1 in Full() - {0};
    Full() - {0}
  }

  /** The new state, and the block and slot that received the object. */
  datatype Placed<B(==)> = Placed(st: ListState<B>, block: B, idx: nat)

  /**
   * `_insert` as written.  With no available block, a new block holds the
   * object in slot 0 and goes to the head of both lists; with an empty iter
   * list, the available head restarts as the only iter-list block; otherwise
   * the available head takes the object in its lowest free slot and leaves
   * the available list once it is full.
   */
  function InsertAsWritten<B(==)>(st: ListState<B>, nb: B): (r: Placed<B>)
    requires WellFormed(st)
    ensures r.idx <= WordBits
    ensures st.avail == [] ==> r.block == nb && r.idx == 0
  {
    if st.avail == [] then
      Placed(ListState([nb] + st.iters, [nb], st.slots[nb := InitSlots()]), nb, 0)
    else
      var b := st.avail[0];
      if st.iters == [] then
        Placed(ListState([b], st.avail, st.slots[b := InitSlots()]), b, 0)
      else
        TakeLowest(st, b)
  }

  /** `block->insert` on the available head, and its removal from the list when that filled it. */
  function TakeLowest<B(==)>(st: ListState<B>, b: B): (r: Placed<B>)
    requires WellFormed(st) && st.avail != [] && b == st.avail[0]
    ensures r.block == b && r.idx == Lowest(st.slots[b]) && r.st.iters == st.iters
    ensures r.st.slots == st.slots[b := st.slots[b] - {r.idx}]
  {
    var i := Lowest(st.slots[b]);
    var s := st.slots[b] - {i};
    Placed(ListState(st.iters, if s == {} then st.avail[1..] else st.avail, st.slots[b := s]), b, i)
  }

  /**
   * `_insert` with the evidently intended treatment of an available head
   * that is entirely free: such a block is off the iter list, so, as in the
   * empty-iter-list case, it restarts with the object in slot 0 and is put
   * at the head of the iter list.
   */
  function Insert<B(==)>(st: ListState<B>, nb: B): (r: Placed<B>)
    requires WellFormed(st)
    ensures r.idx <= WordBits
    ensures st.avail == [] ==> r.block == nb && r.idx == 0
    ensures st.avail != [] ==> r.block == st.avail[0]
  {
    if st.avail == [] then
      Placed(ListState([nb] + st.iters, [nb], st.slots[nb := InitSlots()]), nb, 0)
    else
      var b := st.avail[0];
      if st.iters == [] || st.slots[b] == Full() then
        Placed(ListState([b] + st.iters, st.avail, st.slots[b := InitSlots()]), b, 0)
      else
        TakeLowest(st, b)
  }

  lemma InitSlotsObjects(i: nat)
    requires i < WordBits
    ensures i !in InitSlots() <==> i == 0
  {
  }

  /**
   * Insertion keeps the invariant, and the object it places is a new one
   * that becomes reachable through the iter list: the objects grow by
   * exactly that one.
   */
  lemma InsertKeepsInv<B>(st: ListState<B>, nb: B)
    requires Inv(st) && (st.avail == [] ==> nb !in st.slots)
    ensures var r := Insert(st, nb);
            && Inv(r.st)
            && r.idx < WordBits
            && (r.block, r.idx) !in Objects(st)
            && Objects(r.st) == Objects(st) + {(r.block, r.idx)}
  {
    if st.avail == [] {
      InsertFreshInv(st, nb);
      InsertFreshObjects(st, nb);
    } else if st.iters == [] || st.slots[st.avail[0]] == Full() {
      InsertRestartInv(st, nb);
      InsertRestartObjects(st, nb);
    } else {
      InsertLowestInv(st, nb);
      assert st.avail[0] in st.iters;
      InsertLowestObjects(st, nb);
    }
  }

  lemma InsertFreshInv<B>(st: ListState<B>, nb: B)
    requires Inv(st) && nb !in st.slots && st.avail == []
    ensures Inv(Insert(st, nb).st)
  {
    var r := Insert(st, nb).st;
    assert r.iters == [nb] + st.iters && r.avail == [nb];
    assert forall c :: c in r.iters ==> c == nb || c in st.iters;
  }

  lemma InsertFreshObjects<B>(st: ListState<B>, nb: B)
    requires Inv(st) && nb !in st.slots && st.avail == []
    ensures (nb, 0) !in Objects(st)
    ensures Objects(Insert(st, nb).st) == Objects(st) + {(nb, 0)}
  {
    var r := Insert(st, nb).st;
    assert r.iters == [nb] + st.iters;
    forall p | p in Objects(r) ensures p in Objects(st) + {(nb, 0)} {
      if p.0 == nb {
        InitSlotsObjects(p.1);
      } else {
        assert p.0 in st.iters;
      }
    }
    forall p | p in Objects(st) + {(nb, 0)} ensures p in Objects(r) {
      if p.0 == nb {
        InitSlotsObjects(p.1);
      }
    }
    SameSet(Objects(r), Objects(st) + {(nb, 0)});
  }

  lemma InsertRestartInv<B>(st: ListState<B>, nb: B)
    requires Inv(st) && st.avail != [] && (st.iters == [] || st.slots[st.avail[0]] == Full())
    ensures Inv(Insert(st, nb).st)
  {
    var b := st.avail[0];
    var r := Insert(st, nb).st;
    assert b !in st.iters;
    assert r.iters == [b] + st.iters && r.avail == st.avail;
    assert forall c :: c in r.iters ==> c == b || c in st.iters;
  }

  lemma InsertRestartObjects<B>(st: ListState<B>, nb: B)
    requires Inv(st) && st.avail != [] && (st.iters == [] || st.slots[st.avail[0]] == Full())
    ensures (st.avail[0], 0) !in Objects(st)
    ensures Objects(Insert(st, nb).st) == Objects(st) + {(st.avail[0], 0)}
  {
    var b := st.avail[0];
    var r := Insert(st, nb).st;
    assert b !in st.iters;
    assert r.iters == [b] + st.iters;
    forall p | p in Objects(r) ensures p in Objects(st) + {(b, 0)} {
      if p.0 == b {
        InitSlotsObjects(p.1);
      } else {
        assert p.0 in st.iters;
      }
    }
    forall p | p in Objects(st) + {(b, 0)} ensures p in Objects(r) {
      if p.0 == b {
        InitSlotsObjects(p.1);
      }
    }
    SameSet(Objects(r), Objects(st) + {(b, 0)});
  }

  lemma InsertLowestInv<B>(st: ListState<B>, nb: B)
    requires Inv(st) && st.avail != [] && st.iters != [] && st.slots[st.avail[0]] != Full()
    ensures Inv(Insert(st, nb).st)
  {
    var b := st.avail[0];
    var r := Insert(st, nb);
    assert r.st == TakeLowest(st, b).st;
    assert b in st.iters;
    var s := r.st.slots[b];
    assert s != Full() by {
      assert r.idx in Full();
    }
    forall c | c in r.st.avail ensures c in st.avail && (c == b ==> s != {}) {
      if s == {} {
        assert c in st.avail[1..];
        assert forall k :: 1 <= k < |st.avail| ==> st.avail[k] != b;
      }
    }
  }

  lemma InsertLowestObjects<B>(st: ListState<B>, nb: B)
    requires WellFormed(st) && st.avail != [] && st.iters != [] && st.slots[st.avail[0]] != Full()
    requires st.avail[0] in st.iters && st.slots[st.avail[0]] != {}
    ensures var r := Insert(st, nb);
            && r.idx < WordBits
            && (r.block, r.idx) !in Objects(st)
            && Objects(r.st) == Objects(st) + {(r.block, r.idx)}
  {
    var b := st.avail[0];
    var r := Insert(st, nb);
    assert r == TakeLowest(st, b);
    var i := r.idx;
    assert i in st.slots[b];
    forall p | p in Objects(r.st) ensures p in Objects(st) + {(b, i)} {
    }
    forall p | p in Objects(st) + {(b, i)} ensures p in Objects(r.st) {
    }
    SameSet(Objects(r.st), Objects(st) + {(b, i)});
  }

  /**
   * The defect: once `remove` has emptied the only available block while
   * other blocks stay on the iter list, the next object goes into that
   * block, which is no longer on the iter list.  The insertion then adds
   * nothing that the iter list (and so `node_iterator`) can reach.
   */
  lemma InsertAsWrittenHides<B>(st: ListState<B>, nb: B)
    requires Inv(st) && st.iters != [] && st.avail != [] && st.slots[st.avail[0]] == Full()
    ensures var r := InsertAsWritten(st, nb);
            && r.block !in r.st.iters
            && (r.block, r.idx) !in Objects(r.st)
            && Objects(r.st) == Objects(st)
  {
    var b := st.avail[0];
    assert b !in st.iters;
    var r := InsertAsWritten(st, nb);
    assert r == TakeLowest(st, b);
    ObjectsOffList(st, r.st, b);
  }

  /** Changing the word of a block off the iter list changes no object. */
  lemma ObjectsOffList<B>(st: ListState<B>, r: ListState<B>, b: B)
    requires b !in st.iters && r.iters == st.iters
    requires b in st.slots && b in r.slots && r.slots == st.slots[b := r.slots[b]]
    ensures Objects(r) == Objects(st)
  {
    forall p | p in Objects(r) ensures p in Objects(st) {
    }
    forall p | p in Objects(st) ensures p in Objects(r) {
    }
    SameSet(Objects(r), Objects(st));
  }

  // ---------------------------------------------------------------------
  // remove / remove_batch
  // ---------------------------------------------------------------------

  /**
   * The code shared by `remove` and `remove_batch`, as written: or the mask
   * into the block's word; a block whose new word equals the mask (it was
   * full) goes to the head of the available list; otherwise a block that is
   * now entirely free leaves the iter list and, unless it is the only
   * available block, the available list too (and is freed).
   */
  function DropAsWritten<B(==)>(st: ListState<B>, b: B, mask: set<nat>): (r: ListState<B>)
    requires b in st.slots
  {
    var ret := st.slots[b] + mask;
    var slots := st.slots[b := ret];
    if ret == mask then
      ListState(st.iters, [b] + st.avail, slots)
    else if ret == Full() then
      LeaveIter(st.iters, st.avail, slots, b)
    else
      ListState(st.iters, st.avail, slots)
  }

  /** `unlink_block`, then `unlink_available` and `free` unless the available list has one block. */
  function LeaveIter<B(==)>(iters: seq<B>, avail: seq<B>, slots: map<B, set<nat>>, b: B): (r: ListState<B>)
    ensures r.iters == Unlisted(iters, b)
  {
    if |avail| >= 2 then ListState(Unlisted(iters, b), Unlisted(avail, b), slots - {b})
    else ListState(Unlisted(iters, b), avail, slots)
  }

  /**
   * The evidently intended drop: the two tests are independent, so a block
   * that was full and becomes entirely free in one batch is first made
   * available and then leaves the iter list.
   */
  function Drop<B(==)>(st: ListState<B>, b: B, mask: set<nat>): (r: ListState<B>)
    requires b in st.slots
  {
    var ret := st.slots[b] + mask;
    var slots := st.slots[b := ret];
    var avail := if ret == mask then [b] + st.avail else st.avail;
    if ret == Full() then
      LeaveIter(st.iters, avail, slots, b)
    else
      ListState(st.iters, avail, slots)
  }

  /** What removing the objects of b in mask requires: they are there, and there is at least one. */
  predicate Removable<B(==)>(st: ListState<B>, b: B, mask: set<nat>) {
    && b in st.iters && b in st.slots
    && IsMask(mask) && mask != {}
    && (forall i :: i in mask ==> i !in st.slots[b])
  }

  /** Or-ing in a mask of used slots gives back the mask exactly when no slot was free. */
  lemma WasFull(free: set<nat>, mask: set<nat>)
    requires forall i :: i in mask ==> i !in free
    ensures free + mask == mask <==> free == {}
  {
    assert free * mask == {};
    if free + mask == mask {
      assert free == free * mask;
    }
  }

  /** The objects after or-ing a mask of used slots into the word of b. */
  lemma ObjectsOr<B>(st: ListState<B>, r: ListState<B>, b: B, mask: set<nat>)
    requires b in st.slots && r.iters == st.iters && r.slots == st.slots[b := st.slots[b] + mask]
    ensures Objects(r) == Objects(st) - Slots(b, mask)
  {
    forall p | p in Objects(r) ensures p in Objects(st) - Slots(b, mask) {
    }
    forall p | p in Objects(st) - Slots(b, mask) ensures p in Objects(r) {
    }
    SameSet(Objects(r), Objects(st) - Slots(b, mask));
  }

  /** The objects after b, whose used slots are all in mask, leaves the iter list. */
  lemma ObjectsWithout<B>(st: ListState<B>, r: ListState<B>, b: B, mask: set<nat>)
    requires b in st.slots && forall i: nat :: i < WordBits && i !in st.slots[b] ==> i in mask
    requires forall c :: c in r.iters ==> c in st.iters && c != b && c in r.slots
    requires forall c :: c in r.iters ==> c in st.slots && r.slots[c] == st.slots[c]
    requires forall c :: c in st.iters && c != b ==> c in r.iters
    ensures Objects(r) == Objects(st) - Slots(b, mask)
  {
    forall p | p in Objects(r) ensures p in Objects(st) - Slots(b, mask) {
    }
    forall p | p in Objects(st) - Slots(b, mask) ensures p in Objects(r) {
    }
    SameSet(Objects(r), Objects(st) - Slots(b, mask));
  }

  /** The drop when the block keeps an object: the word changes, and a block that was full is made available. */
  lemma DropKeeps<B>(st: ListState<B>, b: B, mask: set<nat>)
    requires Inv(st) && Removable(st, b, mask)
    requires st.slots[b] + mask != Full()
    ensures Inv(Drop(st, b, mask))
    ensures Objects(Drop(st, b, mask)) == Objects(st) - Slots(b, mask)
  {
    WasFull(st.slots[b], mask);
    var wasFull := st.slots[b] == {};
    var avail := if wasFull then [b] + st.avail else st.avail;
    var r := ListState(st.iters, avail, st.slots[b := st.slots[b] + mask]);
    assert Drop(st, b, mask) == r;
    DropKeepsInvOf(st, b, mask, avail, r);
    ObjectsOr(st, r, b, mask);
  }

  lemma DropKeepsInvOf<B>(st: ListState<B>, b: B, mask: set<nat>, avail: seq<B>, r: ListState<B>)
    requires Inv(st) && Removable(st, b, mask)
    requires st.slots[b] + mask != Full()
    requires avail == if st.slots[b] == {} then [b] + st.avail else st.avail
    requires r == ListState(st.iters, avail, st.slots[b := st.slots[b] + mask])
    ensures Inv(r)
  {
    assert st.slots[b] == {} ==> b !in st.avail;
    assert b in avail;
    assert forall c :: c in avail ==> c == b || c in st.avail;
  }

  /** The drop that frees the whole block: it leaves the iter list, and the available list unless it is the only one there. */
  lemma DropFrees<B>(st: ListState<B>, b: B, mask: set<nat>)
    requires Inv(st) && Removable(st, b, mask)
    requires st.slots[b] + mask == Full()
    ensures Inv(Drop(st, b, mask))
    ensures Objects(Drop(st, b, mask)) == Objects(st) - Slots(b, mask)
  {
    var avail := if st.slots[b] == {} then [b] + st.avail else st.avail;
    DropFreesIs(st, b, mask);
    DropFreesAvail(st, b, mask, avail);
    DropFreesInv(st, b, avail, LeaveIter(st.iters, avail, st.slots[b := Full()], b));
    LeaveIterObjects(st, b, mask, avail);
  }

  /** The shape of a drop that frees the whole block. */
  lemma DropFreesIs<B>(st: ListState<B>, b: B, mask: set<nat>)
    requires b in st.slots && st.slots[b] + mask == Full()
    requires forall i :: i in mask ==> i !in st.slots[b]
    ensures Drop(st, b, mask) ==
            LeaveIter(st.iters, if st.slots[b] == {} then [b] + st.avail else st.avail, st.slots[b := Full()], b)
  {
    WasFull(st.slots[b], mask);
  }

  /** The objects once b, whose used slots are all in mask, leaves the iter list. */
  lemma LeaveIterObjects<B>(st: ListState<B>, b: B, mask: set<nat>, avail: seq<B>)
    requires WellFormed(st) && b in st.iters && st.slots[b] + mask == Full()
    ensures Objects(LeaveIter(st.iters, avail, st.slots[b := Full()], b)) == Objects(st) - Slots(b, mask)
  {
    FreedAll(st.slots[b], mask);
    ObjectsWithout(st, LeaveIter(st.iters, avail, st.slots[b := Full()], b), b, mask);
  }

  /** When the or-ed word is all ones, the mask holds every slot that was not free. */
  lemma FreedAll(free: set<nat>, mask: set<nat>)
    requires free + mask == Full()
    ensures forall i: nat :: i < WordBits && i !in free ==> i in mask
  {
    forall i: nat | i < WordBits && i !in free ensures i in mask {
      assert i in Full();
    }
  }

  lemma DropFreesAvail<B>(st: ListState<B>, b: B, mask: set<nat>, avail: seq<B>)
    requires Inv(st) && Removable(st, b, mask)
    requires avail == if st.slots[b] == {} then [b] + st.avail else st.avail
    ensures b in avail && Distinct(avail)
    ensures forall c :: c in avail ==> c == b || c in st.avail
    ensures forall c :: c in st.avail ==> c in avail
  {
    assert st.slots[b] == {} ==> b !in st.avail;
  }

  lemma DropFreesInv<B>(st: ListState<B>, b: B, avail: seq<B>, r: ListState<B>)
    requires Inv(st) && b in st.iters && Distinct(avail) && b in avail
    requires forall c :: c in avail ==> c == b || c in st.avail
    requires forall c :: c in st.avail ==> c in avail
    requires r == LeaveIter(st.iters, avail, st.slots[b := Full()], b)
    ensures Inv(r)
  {
    if |avail| < 2 {
      assert avail == [b];
      assert forall c :: c in r.avail ==> c == b;
    }
  }

  /**
   * Dropping keeps the invariant and takes exactly the objects of the mask
   * out of the list.
   */
  lemma DropKeepsInv<B>(st: ListState<B>, b: B, mask: set<nat>)
    requires Inv(st) && Removable(st, b, mask)
    ensures Inv(Drop(st, b, mask))
    ensures Objects(Drop(st, b, mask)) == Objects(st) - Slots(b, mask)
  {
    if st.slots[b] + mask == Full() {
      DropFrees(st, b, mask);
    } else {
      DropKeeps(st, b, mask);
    }
  }

  /** Dropping keeps the invariant (the first half of DropKeepsInv). */
  lemma DropInv<B>(st: ListState<B>, b: B, mask: set<nat>)
    requires Inv(st) && Removable(st, b, mask)
    ensures Inv(Drop(st, b, mask))
  {
    DropKeepsInv(st, b, mask);
  }

  /** A drop changes only b's word, to the word or-ed with the mask, or forgets b. */
  lemma DropSlots<B>(st: ListState<B>, b: B, mask: set<nat>)
    requires b in st.slots
    ensures var r := Drop(st, b, mask);
            && (forall c :: c in r.slots ==> c in st.slots)
            && (forall c :: c in r.slots && c != b ==> r.slots[c] == st.slots[c])
            && (b in r.slots ==> r.slots[b] == st.slots[b] + mask)
  {
  }

  /** `remove(n)`: the drop of the single bit `1 << idx`. */
  function Remove<B(==)>(st: ListState<B>, b: B, idx: nat): (r: ListState<B>)
    requires b in st.slots
  {
    DropAsWritten(st, b, {idx})
  }

  /**
   * For one object the code as written is right: a single bit is never the
   * whole word, so `remove` always agrees with the intended drop, keeps the
   * invariant and takes exactly that object out.
   */
  lemma RemoveIsDrop<B>(st: ListState<B>, b: B, idx: nat)
    requires Inv(st) && Removable(st, b, {idx})
    ensures Remove(st, b, idx) == Drop(st, b, {idx})
    ensures Inv(Remove(st, b, idx))
    ensures Objects(Remove(st, b, idx)) == Objects(st) - {(b, idx)}
  {
    RemoveAgrees(st, b, idx);
    DropKeepsInv(st, b, {idx});
    SlotsSingle(b, idx);
  }

  lemma RemoveAgrees<B>(st: ListState<B>, b: B, idx: nat)
    requires b in st.slots
    ensures Remove(st, b, idx) == Drop(st, b, {idx})
  {
    SingleNotFull(idx);
  }

  lemma SlotsSingle<B>(b: B, idx: nat)
    ensures Slots(b, {idx}) == {(b, idx)}
  {
    assert (b, idx) in Slots(b, {idx});
  }

  /** A single bit is never the whole word. */
  lemma SingleNotFull(idx: nat)
    ensures {idx} != Full()
  {
    assert 0 in Full() && 1 in Full();
  }

  /**
   * The defect of `remove_batch`: a full block whose every object is
   * removed in one batch takes only the "was full" branch, so it stays on
   * the iter list with no object in it, breaking the invariant (an
   * iterator starting at it reads slot 64).
   */
  lemma DropAsWrittenKeepsEmptyBlock<B>(st: ListState<B>, b: B)
    requires Inv(st) && b in st.iters && st.slots[b] == {}
    ensures b in DropAsWritten(st, b, Full()).iters
    ensures DropAsWritten(st, b, Full()).slots[b] == Full()
    ensures !Inv(DropAsWritten(st, b, Full()))
  {
    assert st.slots[b] + Full() == Full();
  }

  /** The corrected drop of the same batch takes the block off the iter list. */
  lemma DropWholeBlockLeaves<B>(st: ListState<B>, b: B)
    requires Inv(st) && b in st.iters && st.slots[b] == {}
    ensures b !in Drop(st, b, Full()).iters
    ensures Inv(Drop(st, b, Full()))
  {
    assert st.slots[b] + Full() == Full();
    assert Removable(st, b, Full());
    DropKeepsInv(st, b, Full());
  }

  // ---------------------------------------------------------------------
  // check()
  // ---------------------------------------------------------------------

  /** The number of blocks of the sequence with a free slot, as `check()` counts them. */
  function RoomyCount<B(==)>(blocks: seq<B>, slots: map<B, set<nat>>): (n: nat)
    requires forall b :: b in blocks ==> b in slots
    ensures n <= |blocks|
  {
    if blocks == [] then 0
    else (if slots[blocks[0]] != {} then 1 else 0) + RoomyCount(blocks[1..], slots)
  }

  /**
   * What `check()` asserts about the contents: every available block has a
   * free slot, and the uint32 count of available blocks minus iter-list
   * blocks with a free slot is 0 or 1.
   */
  predicate CheckPasses<B(==)>(st: ListState<B>)
    requires WellFormed(st)
  {
    && (forall b :: b in st.avail ==> st.slots[b] != {})
    && var c := (|st.avail| - RoomyCount(st.iters, st.slots)) % Two32;
       c == 0 || c == 1
  }

  lemma {:induction false} RoomyCountCard<B>(blocks: seq<B>, slots: map<B, set<nat>>)
    requires Distinct(blocks) && forall b :: b in blocks ==> b in slots
    ensures RoomyCount(blocks, slots) == |set b | b in blocks && slots[b] != {}|
  {
    if blocks != [] {
      var t := blocks[1..];
      RoomyCountCard(t, slots);
      var rt := set b | b in t && slots[b] != {};
      var r := set b | b in blocks && slots[b] != {};
      assert blocks[0] !in t;
      if slots[blocks[0]] != {} {
        assert r == rt + {blocks[0]};
      } else {
        assert r == rt;
      }
    }
  }

  /** The invariant implies what `check()` asserts. */
  lemma InvPassesCheck<B>(st: ListState<B>)
    requires Inv(st)
    ensures CheckPasses(st)
    ensures |st.avail| - RoomyCount(st.iters, st.slots) in {0, 1}
  {
    RoomyCountCard(st.iters, st.slots);
    DistinctCard(st.avail);
    AvailSplits(st.iters, st.avail, st.slots);
    SpareAtMostOne(st.iters, st.avail);
  }

  /** The available blocks are the roomy iter-list blocks and the spare ones, and no block is both. */
  lemma AvailSplits<B>(iters: seq<B>, avail: seq<B>, slots: map<B, set<nat>>)
    requires forall b :: b in iters ==> b in slots
    requires forall b :: b in avail ==> b in slots && slots[b] != {}
    requires forall b :: b in iters && slots[b] != {} ==> b in avail
    ensures |set b | b in avail| ==
            |set b | b in iters && slots[b] != {}| + |set b | b in avail && b !in iters|
  {
    var roomy := set b | b in iters && slots[b] != {};
    var spare := set b | b in avail && b !in iters;
    var all := set b | b in avail;
    SameSet(all, roomy + spare);
    assert roomy * spare == {};
  }

  /** At most one available block is off the iter list. */
  lemma SpareAtMostOne<B>(iters: seq<B>, avail: seq<B>)
    requires forall b, c :: b in avail && b !in iters && c in avail && c !in iters ==> b == c
    ensures |set b | b in avail && b !in iters| <= 1
  {
    var spare := set b | b in avail && b !in iters;
    if spare != {} {
      var x :| x in spare;
      assert spare == {x};
    }
  }

  // ---------------------------------------------------------------------
  // Iteration order
  // ---------------------------------------------------------------------
  /**
   * The objects of block b at the one bits of m, lowest first: what a
   * cursor word m yields under `get()` / `next()` (tzcnt, then blsr).
   */
  function Drain<B>(b: B, m: set<nat>): seq<(B, nat)>
    requires IsMask(m)
    decreases |m|
  {
    if m == {} then [] else [(b, Lowest(m))] + Drain(b, ClearLowest(m))
  }

  lemma {:induction false} DrainSound<B>(b: B, m: set<nat>, k: nat)
    requires IsMask(m) && k < |Drain(b, m)|
    ensures Drain(b, m)[k].0 == b && Drain(b, m)[k].1 in m
    ensures Drain(b, m)[k].1 >= Lowest(m)
    decreases |m|
  {
    if k > 0 {
      DrainSound(b, ClearLowest(m), k - 1);
    }
  }

  lemma {:induction false} DrainComplete<B>(b: B, m: set<nat>, i: nat)
    requires IsMask(m) && i in m
    ensures (b, i) in Drain(b, m)
    decreases |m|
  {
    if i != Lowest(m) {
      DrainComplete(b, ClearLowest(m), i);
    }
  }

  lemma {:induction false} DrainAscending<B>(b: B, m: set<nat>, i: nat, j: nat)
    requires IsMask(m) && i < j < |Drain(b, m)|
    ensures Drain(b, m)[i].1 < Drain(b, m)[j].1
    decreases |m|
  {
    var t := ClearLowest(m);
    DrainAt(b, m, j);
    if i == 0 {
      DrainAt(b, m, 0);
      DrainSound(b, t, j - 1);
      LowestBelowRest(m, Drain(b, t)[j - 1].1);
    } else {
      DrainAt(b, m, i);
      DrainAscending(b, t, i - 1, j - 1);
    }
  }

  /** Every bit left after clearing the lowest is above it. */
  lemma LowestBelowRest(m: set<nat>, x: nat)
    requires IsMask(m) && m != {} && x in ClearLowest(m)
    ensures Lowest(m) < x
  {
  }

  /** Position k of a drain: the lowest bit first, then the drain of the rest. */
  lemma DrainAt<B>(b: B, m: set<nat>, k: nat)
    requires IsMask(m) && k < |Drain(b, m)|
    ensures m != {}
    ensures k == 0 ==> Drain(b, m)[k] == (b, Lowest(m))
    ensures k > 0 ==> k - 1 < |Drain(b, ClearLowest(m))| && Drain(b, m)[k] == Drain(b, ClearLowest(m))[k - 1]
  {
  }

  /**
   * The order in which `node_iterator` visits the objects: for each block
   * of the sequence in turn, its used slots in ascending order.
   */
  function Visit<B(==)>(blocks: seq<B>, slots: map<B, set<nat>>): seq<(B, nat)>
    requires forall b :: b in blocks ==> b in slots
  {
    if blocks == [] then []
    else Drain(blocks[0], Complement(slots[blocks[0]])) + Visit(blocks[1..], slots)
  }

  /** The order of a full walk from `nbegin()`. */
  function Traversal<B(==)>(st: ListState<B>): seq<(B, nat)>
    requires WellFormed(st)
  {
    Visit(st.iters, st.slots)
  }

  lemma {:induction false} VisitSound<B>(blocks: seq<B>, slots: map<B, set<nat>>, k: nat)
    requires forall b :: b in blocks ==> b in slots
    requires k < |Visit(blocks, slots)|
    ensures var p := Visit(blocks, slots)[k];
            p.0 in blocks && p.1 < WordBits && p.1 !in slots[p.0]
  {
    var head := Drain(blocks[0], Complement(slots[blocks[0]]));
    if k < |head| {
      DrainSound(blocks[0], Complement(slots[blocks[0]]), k);
    } else {
      VisitSound(blocks[1..], slots, k - |head|);
    }
  }

  lemma {:induction false} VisitComplete<B>(blocks: seq<B>, slots: map<B, set<nat>>, b: B, i: nat)
    requires forall c :: c in blocks ==> c in slots
    requires b in blocks && i < WordBits && i !in slots[b]
    ensures (b, i) in Visit(blocks, slots)
  {
    var head := Drain(blocks[0], Complement(slots[blocks[0]]));
    var tail := Visit(blocks[1..], slots);
    assert Visit(blocks, slots) == head + tail;
    if b == blocks[0] {
      DrainComplete(b, Complement(slots[b]), i);
    } else {
      assert b in blocks[1..];
      VisitComplete(blocks[1..], slots, b, i);
    }
  }

  lemma {:induction false} VisitDistinct<B>(blocks: seq<B>, slots: map<B, set<nat>>)
    requires Distinct(blocks) && forall b :: b in blocks ==> b in slots
    ensures Distinct(Visit(blocks, slots))
  {
    if blocks != [] {
      VisitDistinct(blocks[1..], slots);
      var m := Complement(slots[blocks[0]]);
      var head := Drain(blocks[0], m);
      var tail := Visit(blocks[1..], slots);
      assert blocks[0] !in blocks[1..];
      var v := Visit(blocks, slots);
      assert v == head + tail;
      forall i, j | 0 <= i < j < |v| ensures v[i] != v[j] {
        if j < |head| {
          DrainAscending(blocks[0], m, i, j);
        } else if i < |head| {
          DrainSound(blocks[0], m, i);
          VisitSound(blocks[1..], slots, j - |head|);
        }
      }
    }
  }

  /**
   * A walk visits exactly the objects of the list, each once, and within a
   * block in ascending slot order.
   */
  lemma TraversalIsObjects<B>(st: ListState<B>)
    requires WellFormed(st)
    ensures forall p :: p in Traversal(st) ==> p in Objects(st)
    ensures forall p :: p in Objects(st) ==> p in Traversal(st)
    ensures Distinct(Traversal(st))
    ensures |Traversal(st)| == |Objects(st)|
  {
    var t := Traversal(st);
    forall p | p in t ensures p in Objects(st) {
      var k :| 0 <= k < |t| && t[k] == p;
      VisitSound(st.iters, st.slots, k);
    }
    forall p | p in Objects(st) ensures p in t {
      VisitComplete(st.iters, st.slots, p.0, p.1);
    }
    VisitDistinct(st.iters, st.slots);
    DistinctCard(t);
    var ts := set p | p in t;
    SameSet(ts, Objects(st));
  }


  /** Position k of a walk: in the first block's drain, or further on. */
  lemma VisitAt<B>(blocks: seq<B>, slots: map<B, set<nat>>, k: nat)
    requires forall b :: b in blocks ==> b in slots
    requires k < |Visit(blocks, slots)|
    ensures blocks != []
    ensures var head := Drain(blocks[0], Complement(slots[blocks[0]]));
            && (k < |head| ==> Visit(blocks, slots)[k] == head[k])
            && (k >= |head| ==> k - |head| < |Visit(blocks[1..], slots)|
                                && Visit(blocks, slots)[k] == Visit(blocks[1..], slots)[k - |head|])
  {
    var head := Drain(blocks[0], Complement(slots[blocks[0]]));
    var tail := Visit(blocks[1..], slots);
    assert Visit(blocks, slots) == head + tail;
  }

  lemma {:induction false} VisitAscending<B>(blocks: seq<B>, slots: map<B, set<nat>>, i: nat, j: nat)
    requires forall b :: b in blocks ==> b in slots
    requires i < j < |Visit(blocks, slots)| && Visit(blocks, slots)[i].0 == Visit(blocks, slots)[j].0
    requires Distinct(blocks)
    ensures Visit(blocks, slots)[i].1 < Visit(blocks, slots)[j].1
    decreases |blocks|
  {
    VisitAt(blocks, slots, j);
    var m := Complement(slots[blocks[0]]);
    var head := Drain(blocks[0], m);
    VisitAt(blocks, slots, i);
    if j < |head| {
      DrainAscending(blocks[0], m, i, j);
    } else {
      VisitInTail(blocks, slots, i, j);
      TailDistinct(blocks);
      VisitAscending(blocks[1..], slots, i - |head|, j - |head|);
    }
  }

  /** The rest of a list of distinct blocks is distinct and does not hold the first. */
  lemma TailDistinct<B>(blocks: seq<B>)
    requires Distinct(blocks) && blocks != []
    ensures Distinct(blocks[1..]) && blocks[0] !in blocks[1..]
  {
    forall i, j | 0 <= i < j < |blocks| - 1 ensures blocks[1..][i] != blocks[1..][j] {
      assert blocks[1..][i] == blocks[i + 1] && blocks[1..][j] == blocks[j + 1];
    }
  }

  /** Two visits of one block, the later one past the first block's drain, are both past it. */
  lemma VisitInTail<B>(blocks: seq<B>, slots: map<B, set<nat>>, i: nat, j: nat)
    requires forall b :: b in blocks ==> b in slots
    requires Distinct(blocks) && blocks != []
    requires var head := Drain(blocks[0], Complement(slots[blocks[0]]));
             && i < j < |head| + |Visit(blocks[1..], slots)| && |head| <= j
             && (i < |head| ==> head[i].0 == Visit(blocks[1..], slots)[j - |head|].0)
    ensures i >= |Drain(blocks[0], Complement(slots[blocks[0]]))|
  {
    var m := Complement(slots[blocks[0]]);
    var head := Drain(blocks[0], m);
    assert blocks[0] !in blocks[1..];
    if i < |head| {
      DrainSound(blocks[0], m, i);
      VisitSound(blocks[1..], slots, j - |head|);
    }
  }

  /** A walk of a list that keeps the invariant starts at the lowest used slot of the first block. */
  lemma TraversalHead<B>(st: ListState<B>)
    requires Inv(st) && st.iters != []
    ensures var b := st.iters[0];
            && Complement(st.slots[b]) != {}
            && |Traversal(st)| > 0
            && Traversal(st)[0] == (b, Lowest(Complement(st.slots[b])))
  {
    var b := st.iters[0];
    var m := Complement(st.slots[b]);
    assert m != {} by {
      if m == {} {
        SameSet(st.slots[b], Full());
      }
    }
    assert Traversal(st) == Drain(b, m) + Visit(st.iters[1..], st.slots);
  }

  /** A word with a used slot has a non-empty complement: what an iterator starts a block with. */
  lemma SomeUsed(s: set<nat>)
    requires IsMask(s) && s != Full()
    ensures Complement(s) != {}
  {
    if Complement(s) == {} {
      SameSet(s, Full());
    }
  }

  /**
   * The word `pop()` works on: the complement u of a word with a used slot
   * is not empty, its lowest bit is the slot taken, and complementing u
   * without that bit gives the word with the slot freed.
   */
  lemma PopWord(s: set<nat>)
    requires IsMask(s) && s != Full()
    ensures var u := Complement(s);
            && u != {}
            && Lowest(u) < WordBits && Lowest(u) !in s
            && Complement(ClearLowest(u)) == s + {Lowest(u)}
            && (u == Full() <==> s == {})
            && (ClearLowest(u) == {} <==> s + {Lowest(u)} == Full())
  {
    var u := Complement(s);
    assert u != {} by {
      if u == {} {
        SameSet(s, Full());
      }
    }
    var i := Lowest(u);
    SameSet(Complement(ClearLowest(u)), s + {i});
    if s == {} {
      SameSet(u, Full());
    }
    if u == Full() {
      assert s == {};
    }
    if s + {i} == Full() {
      SameSet(ClearLowest(u), {});
    }
  }

  /** Within a block, a walk visits the used slots in ascending order. */
  lemma TraversalAscending<B>(st: ListState<B>, i: nat, j: nat)
    requires WellFormed(st)
    requires i < j < |Traversal(st)| && Traversal(st)[i].0 == Traversal(st)[j].0
    ensures Traversal(st)[i].1 < Traversal(st)[j].1
  {
    VisitAscending(st.iters, st.slots, i, j);
  }
}
