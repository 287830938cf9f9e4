/**
 * The block list of lib/container/block_list.h as objects: a `NodeBlock`
 * owns its `node_slots` word (a one bit is a free slot), and a `BlockList`
 * holds the iter list and the available list.  The intrusive next/prev
 * pointers of the two lists are represented by the lists' contents in
 * order, which the link and unlink operations reassign.  A ghost
 * `ListState` mirrors the list; `Valid()` ties it to the objects and keeps
 * the invariant of BlockListSpec, and every operation is proved to move the
 * mirror as the corresponding function of BlockListSpec does.
 */
module BlockList {
  import opened Machine
  import opened Bitmask
  import opened BlockListSpec

  // ---------------------------------------------------------------------
  // node_block
  // ---------------------------------------------------------------------

  class NodeBlock {
    var nodeSlots: set<nat>

    /** A block from `calloc`: the word is zero, so no slot is free. */
    constructor ()
      ensures nodeSlots == {}
    {
      nodeSlots := {};
    }

    /** `init()`: `node_slots = ~1`, slot 0 taken by the object placed there. */
    method Init()
      modifies this
      ensures nodeSlots == InitSlots()
    {
      nodeSlots := InitSlots();
    }

    /**
     * `insert()`: take the lowest free slot; the flag returned in the low
     * bit of the address says whether the block is now full.
     */
    method Insert() returns (idx: nat, nowFull: bool)
      requires IsMask(nodeSlots) && nodeSlots != {}
      modifies this
      ensures idx == Lowest(old(nodeSlots)) && idx < WordBits
      ensures nodeSlots == old(nodeSlots) - {idx}
      ensures nowFull <==> nodeSlots == {}
    {
      idx := Lowest(nodeSlots);
      nodeSlots := ClearLowest(nodeSlots);
      nowFull := nodeSlots == {};
    }

    /** The store `block->node_slots = w`. */
    method Store(w: set<nat>)
      modifies this
      ensures nodeSlots == w
    {
      nodeSlots := w;
    }

    /** `drop(mask)`: free the slots of the mask and return the new word. */
    method Drop(mask: set<nat>) returns (ret: set<nat>)
      modifies this
      ensures nodeSlots == old(nodeSlots) + mask && ret == nodeSlots
    {
      nodeSlots := nodeSlots + mask;
      ret := nodeSlots;
    }
  }

  // ---------------------------------------------------------------------
  // block_list
  // ---------------------------------------------------------------------

  class BlockList {
    var iterList: seq<NodeBlock>
    var availableList: seq<NodeBlock>
    /** The list as a value: its two sequences and the word of every listed block. */
    ghost var model: ListState<NodeBlock>

    /** Every listed block's word is the one the mirror records. */
    ghost predicate Synced()
      reads this, model.slots.Keys
    {
      forall b :: b in model.slots ==> b.nodeSlots == model.slots[b]
    }

    ghost predicate Valid()
      reads this, model.slots.Keys
    {
      && model.iters == iterList && model.avail == availableList
      && Inv(model)
      && Synced()
    }

    /** `zero()`. */
    constructor ()
      ensures Valid() && model == Empty()
    {
      iterList := [];
      availableList := [];
      model := Empty();
    }

    /** `zero()` on an existing list: both lists become empty. */
    method Zero()
      modifies this
      ensures Valid() && model == Empty()
    {
      iterList := [];
      availableList := [];
      model := Empty();
    }

    /** `link_available`: b becomes the head of the available list. */
    method LinkAvailable(b: NodeBlock)
      modifies this
      ensures availableList == [b] + old(availableList)
      ensures iterList == old(iterList) && model == old(model)
    {
      availableList := [b] + availableList;
    }

    /** `unlink_available`: b is spliced out of the available list. */
    method UnlinkAvailable(b: NodeBlock)
      modifies this
      ensures availableList == Unlisted(old(availableList), b)
      ensures iterList == old(iterList) && model == old(model)
    {
      availableList := Unlisted(availableList, b);
    }

    /** `link_block`: b becomes the head of the iter list. */
    method LinkBlock(b: NodeBlock)
      modifies this
      ensures iterList == [b] + old(iterList)
      ensures availableList == old(availableList) && model == old(model)
    {
      iterList := [b] + iterList;
    }

    /** `unlink_block`: b is spliced out of the iter list. */
    method UnlinkBlock(b: NodeBlock)
      modifies this
      ensures iterList == Unlisted(old(iterList), b)
      ensures availableList == old(availableList) && model == old(model)
    {
      iterList := Unlisted(iterList, b);
    }

    /**
     * `_insert`, with an entirely free available head restarted as in the
     * empty-iter-list case: the mirror moves as BlockListSpec.Insert says
     * and the invariant is kept (so, by InsertKeepsInv, exactly one new
     * object, the one returned, joins the list).
     */
    method Insert() returns (block: NodeBlock, idx: nat)
      requires Valid()
      modifies this, model.slots.Keys
      ensures Valid()
      ensures old(availableList) == [] ==> fresh(block)
      ensures var r := BlockListSpec.Insert(old(model), block);
              model == r.st && block == r.block && idx == r.idx
    {
      if availableList == [] {
        block, idx := InsertFresh();
      } else if iterList == [] || availableList[0].nodeSlots == Full() {
        block, idx := InsertRestart();
      } else {
        block, idx := InsertLowest();
      }
    }

    /** `_insert` with no available block: a new block takes the object in slot 0. */
    method InsertFresh() returns (block: NodeBlock, idx: nat)
      requires Valid() && availableList == []
      modifies this
      ensures Valid() && fresh(block)
      ensures var r := BlockListSpec.Insert(old(model), block);
              model == r.st && block == r.block && idx == r.idx
    {
      ghost var st := model;
      block := new NodeBlock();
      block.Init();
      LinkBlock(block);
      LinkAvailable(block);
      idx := 0;
      InsertFreshInv(st, block);
      model := BlockListSpec.Insert(st, block).st;
    }

    /**
     * `_insert` when the available head is entirely free (with an empty
     * iter list it must be): the head restarts with the object in slot 0
     * and goes to the head of the iter list.
     */
    method InsertRestart() returns (block: NodeBlock, idx: nat)
      requires Valid() && availableList != []
      requires iterList == [] || availableList[0].nodeSlots == Full()
      modifies this, availableList[0]
      ensures Valid()
      ensures var r := BlockListSpec.Insert(old(model), block);
              model == r.st && block == r.block && idx == r.idx
    {
      ghost var st := model;
      block := availableList[0];
      block.Init();
      LinkBlock(block);
      idx := 0;
      InsertRestartInv(st, block);
      model := BlockListSpec.Insert(st, block).st;
    }

    /** `_insert` on an available head in use: its lowest free slot takes the object. */
    method InsertLowest() returns (block: NodeBlock, idx: nat)
      requires Valid() && availableList != [] && iterList != []
      requires availableList[0].nodeSlots != Full()
      modifies this, availableList[0]
      ensures Valid()
      ensures var r := BlockListSpec.Insert(old(model), block);
              model == r.st && block == r.block && idx == r.idx
    {
      ghost var st := model;
      block := availableList[0];
      var nowFull;
      idx, nowFull := block.Insert();
      if nowFull {
        availableList := availableList[1..];
      }
      InsertLowestInv(st, block);
      model := BlockListSpec.Insert(st, block).st;
      assert model.slots == st.slots[block := block.nodeSlots];
      forall b | b in model.slots ensures b.nodeSlots == model.slots[b] {
        if b != block {
          assert b in st.slots;
        }
      }
    }

    /**
     * The part of `remove` and `remove_batch` after the unlink test: the
     * block leaves the iter list and, unless it is the only available
     * block (`available_list->next_available == NULL`), the available list
     * too, and is freed.
     */
    method LeaveIterList(b: NodeBlock) returns (freed: bool)
      modifies this
      ensures iterList == Unlisted(old(iterList), b)
      ensures freed <==> |old(availableList)| >= 2
      ensures availableList == if freed then Unlisted(old(availableList), b) else old(availableList)
      ensures model == old(model)
    {
      UnlinkBlock(b);
      freed := |availableList| >= 2;
      if freed {
        UnlinkAvailable(b);
      }
    }

    /**
     * The relinking after a drop, with the two tests independent: a block
     * that was full is made available, and one that is now entirely free
     * leaves the lists.
     */
    method DropLinks(b: NodeBlock, wasFull: bool, nowFree: bool) returns (freed: bool)
      modifies this
      ensures DropLinked(b, wasFull, nowFree, old(iterList), old(availableList), iterList, availableList, freed)
      ensures model == old(model)
    {
      if wasFull {
        LinkAvailable(b);
      }
      freed := false;
      if nowFree {
        freed := LeaveIterList(b);
      }
    }

    /**
     * `remove_batch(block, mask)`, with the two tests independent as
     * BlockListSpec.Drop intends (as written, a full block emptied in one
     * batch stays on the iter list: DropAsWrittenKeepsEmptyBlock).  The
     * destructors of the objects are not modelled.
     */
    method RemoveBatch(b: NodeBlock, mask: set<nat>)
      requires Valid() && Removable(model, b, mask)
      modifies this, b
      ensures Valid() && model == Drop(old(model), b, mask)
    {
      ghost var st := model;
      var ret := b.Drop(mask);
      var freed := DropLinks(b, ret == mask, ret == Full());
      DropDone(st, b, mask, freed);
      model := Drop(st, b, mask);
    }

    /** The chained tests of `remove`. */
    method RemoveLinks(b: NodeBlock, ret: set<nat>, dropMask: set<nat>) returns (freed: bool)
      modifies this
      ensures RemoveLinked(b, ret == dropMask, ret == Full(), old(iterList), old(availableList),
                           iterList, availableList, freed)
      ensures model == old(model)
    {
      freed := false;
      if ret == dropMask {
        LinkAvailable(b);
      } else if ret == Full() {
        freed := LeaveIterList(b);
      }
    }

    /**
     * `remove(n)` as written, on the single bit of the object's slot: the
     * tests are chained, which for one bit agrees with Drop (RemoveIsDrop).
     */
    method Remove(b: NodeBlock, idx: nat)
      requires Valid() && Removable(model, b, {idx})
      modifies this, b
      ensures Valid() && model == BlockListSpec.Remove(old(model), b, idx)
    {
      ghost var st := model;
      var dropMask := {idx};
      var ret := b.Drop(dropMask);
      var freed := RemoveLinks(b, ret, dropMask);
      RemoveAgrees(st, b, idx);
      RemoveLinkedIsDropLinked(st, b, idx, iterList, availableList, freed);
      DropDone(st, b, {idx}, freed);
      model := BlockListSpec.Remove(st, b, idx);
    }

    /**
     * After a drop of mask from b has been relinked, the lists, the words
     * and the invariant are those of BlockListSpec.Drop.
     */
    lemma DropDone(st: ListState<NodeBlock>, b: NodeBlock, mask: set<nat>, freed: bool)
      requires Inv(st) && Removable(st, b, mask)
      requires var ret := st.slots[b] + mask;
               DropLinked(b, ret == mask, ret == Full(), st.iters, st.avail, iterList, availableList, freed)
      requires forall c :: c in st.slots && c != b ==> c.nodeSlots == st.slots[c]
      requires !freed ==> b.nodeSlots == st.slots[b] + mask
      ensures var r := Drop(st, b, mask);
              && r.iters == iterList && r.avail == availableList && Inv(r)
              && forall c :: c in r.slots ==> c.nodeSlots == r.slots[c]
    {
      DropListsAre(st, b, mask, iterList, availableList, freed);
      DropInv(st, b, mask);
      DropSlots(st, b, mask);
    }

    /**
     * `check()`: the first loop asserts that every available block has a
     * free slot and counts them in a uint32, the second takes one off for
     * every iter-list block with a free slot; ok says whether every assert
     * holds.  The back-pointer asserts hold by construction here, the lists
     * being sequences.
     */
    method Check() returns (ok: bool)
      requires model.iters == iterList && model.avail == availableList
      requires WellFormed(model) && Synced()
      ensures ok <==> CheckPasses(model)
      ensures Inv(model) ==> ok
    {
      var roomy, count := CountAvailable();
      count := CountRoomy(count);
      Wrap32Add(|availableList|, -(RoomyCount(iterList, model.slots) as int));
      ok := roomy && (count == 0 || count == 1);
      if Inv(model) {
        InvPassesCheck(model);
      }
    }

    /** The first loop of `check()`. */
    method CountAvailable() returns (roomy: bool, count: u32)
      requires forall b :: b in availableList ==> b in model.slots
      requires Synced()
      ensures roomy <==> forall b :: b in availableList ==> model.slots[b] != {}
      ensures count == Wrap32(|availableList|)
    {
      roomy, count := true, 0;
      var k := 0;
      while k < |availableList|
        invariant k <= |availableList|
        invariant roomy <==> forall i :: 0 <= i < k ==> model.slots[availableList[i]] != {}
        invariant count == Wrap32(k)
      {
        roomy := roomy && availableList[k].nodeSlots != {};
        Wrap32Add(k, 1);
        count := Wrap32(count + 1);
        k := k + 1;
      }
      assert forall b :: b in availableList ==> exists i :: 0 <= i < k && availableList[i] == b;
    }

    /** The second loop of `check()`: count0 less the iter-list blocks with a free slot, in uint32. */
    method CountRoomy(count0: u32) returns (count: u32)
      requires forall b :: b in iterList ==> b in model.slots
      requires Synced()
      ensures count == Wrap32(count0 - RoomyCount(iterList, model.slots))
    {
      count := count0;
      ghost var total := RoomyCount(iterList, model.slots);
      var j := 0;
      while j < |iterList|
        invariant j <= |iterList|
        invariant count == Wrap32(count0 - total + RoomyCount(iterList[j..], model.slots))
      {
        ghost var before := count0 - total + RoomyCount(iterList[j..], model.slots);
        ghost var after := count0 - total + RoomyCount(iterList[j + 1..], model.slots);
        RoomyCountStep(iterList, model.slots, j);
        assert iterList[j] in model.slots;
        if iterList[j].nodeSlots != {} {
          Wrap32Add(before, -1);
          count := Wrap32(count as int - 1);
          assert before - 1 == after;
        } else {
          assert before == after;
        }
        j := j + 1;
      }
      assert iterList[j..] == [];
    }

    /** `nbegin()`: an iterator that yields the walk of the list. */
    method NBegin() returns (it: NodeIterator)
      requires Valid()
      ensures fresh(it) && it.Valid() && it.Remaining() == Traversal(model)
    {
      it := new NodeIterator(iterList, model.slots);
    }

    /** `bbegin()`: an iterator over the blocks of the iter list. */
    method BBegin() returns (it: BlockIterator)
      ensures fresh(it) && it.rest == iterList
    {
      it := new BlockIterator(iterList);
    }

    /** `head()`: the first object a walk from `nbegin()` visits. */
    method Head() returns (b: NodeBlock, idx: nat)
      requires Valid() && iterList != []
      ensures |Traversal(model)| > 0 && (b, idx) == Traversal(model)[0]
      ensures (b, idx) in Objects(model)
    {
      TraversalHead(model);
      TraversalIsObjects(model);
      b := iterList[0];
      idx := Lowest(Complement(b.nodeSlots));
    }

    /**
     * `pop()`: take the first object of the walk and free its slot, with
     * the bookkeeping of `remove`.
     */
    method Pop() returns (b: NodeBlock, idx: nat)
      requires Valid() && iterList != []
      modifies this, iterList[0]
      ensures Valid()
      ensures (b, idx) == old(Traversal(model))[0]
      ensures model == Drop(old(model), b, {idx})
    {
      TraversalHead(model);
      b := iterList[0];
      var nodeSlots := Complement(b.nodeSlots);
      idx := Lowest(nodeSlots);
      PopWordIs(b, idx);
      var wasFull := nodeSlots == Full();
      nodeSlots := ClearLowest(nodeSlots);
      PopFrom(b, idx, wasFull, nodeSlots == {}, Complement(nodeSlots));
    }

    /** The word `pop()` works on, in terms of the model's free slots of the head block. */
    lemma PopWordIs(b: NodeBlock, idx: nat)
      requires Valid() && iterList != [] && b == iterList[0]
      requires idx == Lowest(Complement(b.nodeSlots))
      ensures Removable(model, b, {idx})
      ensures var u := Complement(b.nodeSlots);
              && u != {}
              && (u == Full() <==> model.slots[b] + {idx} == {idx})
              && (ClearLowest(u) == {} <==> model.slots[b] + {idx} == Full())
              && Complement(ClearLowest(u)) == model.slots[b] + {idx}
    {
      PopRemovable(model, b, idx);
    }

    /**
     * The relinking and the store of `pop()`, once the slot idx of the head
     * block b is chosen: wasFull and nowFree are its two tests and w the
     * word it stores back.
     */
    method PopFrom(b: NodeBlock, idx: nat, wasFull: bool, nowFree: bool, w: set<nat>)
      requires Valid() && Removable(model, b, {idx})
      requires w == model.slots[b] + {idx}
      requires wasFull == (w == {idx}) && nowFree == (w == Full())
      modifies this, b
      ensures Valid() && model == Drop(old(model), b, {idx})
    {
      ghost var st := model;
      var freed := DropLinks(b, wasFull, nowFree);
      if !freed {
        b.Store(w);
      }
      DropDone(st, b, {idx}, freed);
      model := Drop(st, b, {idx});
    }
  }

  /** One step of the second loop of `check()`. */
  lemma RoomyCountStep<B>(blocks: seq<B>, slots: map<B, set<nat>>, j: nat)
    requires forall b :: b in blocks ==> b in slots
    requires j < |blocks|
    ensures RoomyCount(blocks[j..], slots)
            == (if slots[blocks[j]] != {} then 1 else 0) + RoomyCount(blocks[j + 1..], slots)
  {
    assert blocks[j..][1..] == blocks[j + 1..];
  }

  /** What DropLinks leaves, as a relation between the lists before and after. */
  ghost predicate DropLinked(b: NodeBlock, wasFull: bool, nowFree: bool,
                             iters: seq<NodeBlock>, avail: seq<NodeBlock>,
                             iters': seq<NodeBlock>, avail': seq<NodeBlock>, freed: bool)
  {
    var a := if wasFull then [b] + avail else avail;
    if nowFree then
      iters' == Unlisted(iters, b) && (freed <==> |a| >= 2) && avail' == (if freed then Unlisted(a, b) else a)
    else
      !freed && iters' == iters && avail' == a
  }

  /** The lists DropLinks leaves are those of BlockListSpec.Drop. */
  lemma DropListsAre(st: ListState<NodeBlock>, b: NodeBlock, mask: set<nat>,
                     iters': seq<NodeBlock>, avail': seq<NodeBlock>, freed: bool)
    requires b in st.slots
    requires var ret := st.slots[b] + mask;
             DropLinked(b, ret == mask, ret == Full(), st.iters, st.avail, iters', avail', freed)
    ensures iters' == Drop(st, b, mask).iters && avail' == Drop(st, b, mask).avail
    ensures freed <==> b !in Drop(st, b, mask).slots
  {
  }

  /** What RemoveLinks leaves: the tests are chained. */
  ghost predicate RemoveLinked(b: NodeBlock, wasFull: bool, nowFree: bool,
                               iters: seq<NodeBlock>, avail: seq<NodeBlock>,
                               iters': seq<NodeBlock>, avail': seq<NodeBlock>, freed: bool)
  {
    if wasFull then !freed && iters' == iters && avail' == [b] + avail
    else if nowFree then
      && iters' == Unlisted(iters, b) && (freed <==> |avail| >= 2)
      && avail' == (if freed then Unlisted(avail, b) else avail)
    else !freed && iters' == iters && avail' == avail
  }

  /** For a single bit the chained tests of `remove` relink as the independent ones do. */
  lemma RemoveLinkedIsDropLinked(st: ListState<NodeBlock>, b: NodeBlock, idx: nat,
                                 iters': seq<NodeBlock>, avail': seq<NodeBlock>, freed: bool)
    requires b in st.slots
    requires var ret := st.slots[b] + {idx};
             RemoveLinked(b, ret == {idx}, ret == Full(), st.iters, st.avail, iters', avail', freed)
    ensures var ret := st.slots[b] + {idx};
            DropLinked(b, ret == {idx}, ret == Full(), st.iters, st.avail, iters', avail', freed)
  {
    SingleNotFull(idx);
  }

  /**
   * The slot `pop()` takes is the first of the walk and can be removed; the
   * tests `pop()` makes on the complemented word are those of a drop of it.
   */
  lemma PopRemovable(st: ListState<NodeBlock>, b: NodeBlock, idx: nat)
    requires Inv(st) && st.iters != [] && b == st.iters[0]
    requires idx == Lowest(Complement(st.slots[b]))
    ensures Removable(st, b, {idx})
    ensures var u := Complement(st.slots[b]);
            && u != {}
            && (u == Full() <==> st.slots[b] + {idx} == {idx})
            && (ClearLowest(u) == {} <==> st.slots[b] + {idx} == Full())
            && Complement(ClearLowest(u)) == st.slots[b] + {idx}
  {
    PopWord(st.slots[b]);
  }

  // ---------------------------------------------------------------------
  // node_iterator, single_node_iterator, block_iterator
  // ---------------------------------------------------------------------

  /**
   * `node_iterator`: `block` and the blocks after it on the iter list are
   * `rest` (empty once `block` is NULL), and `curNodeSlots` the used slots
   * of `block` not yet visited.  The words of the blocks are fixed while
   * the iterator is in use; `words` records them.
   */
  class NodeIterator {
    var rest: seq<NodeBlock>
    var curNodeSlots: set<nat>
    ghost const words: map<NodeBlock, set<nat>>

    /** Every block still to visit holds an object, and the cursor word is empty exactly at the end. */
    ghost predicate Valid()
      reads this, words.Keys
    {
      && (forall b :: b in rest ==> b in words && b.nodeSlots == words[b] && IsMask(words[b]) && words[b] != Full())
      && IsMask(curNodeSlots)
      && (rest == [] <==> curNodeSlots == {})
    }

    /** The objects the iterator has still to yield, in order. */
    ghost function Remaining(): seq<(NodeBlock, nat)>
      requires Valid()
      reads this, words.Keys
    {
      if rest == [] then [] else Drain(rest[0], curNodeSlots) + Visit(rest[1..], words)
    }

    /** `node_iterator(_block)`, with _block the head of blocks (NULL if blocks is empty). */
    constructor (blocks: seq<NodeBlock>, ghost words: map<NodeBlock, set<nat>>)
      requires forall b :: b in blocks ==> b in words && b.nodeSlots == words[b] && IsMask(words[b]) && words[b] != Full()
      ensures Valid() && this.words == words && rest == blocks
      ensures Remaining() == Visit(blocks, words)
    {
      rest := blocks;
      this.words := words;
      if blocks == [] {
        curNodeSlots := {};
      } else {
        SomeUsed(words[blocks[0]]);
        curNodeSlots := Complement(blocks[0].nodeSlots);
      }
    }

    /** `get()`: the lowest unvisited used slot of `block`. */
    method Get() returns (b: NodeBlock, idx: nat)
      requires Valid() && rest != []
      ensures Remaining() != [] && (b, idx) == Remaining()[0]
    {
      b := rest[0];
      idx := Lowest(curNodeSlots);
    }

    /** `end()`: block is NULL. */
    method End() returns (e: bool)
      requires Valid()
      ensures e <==> Remaining() == []
    {
      e := rest == [];
    }

    /** `next()`: clear the lowest bit; once the word is empty, load the next block's used slots. */
    method Next()
      requires Valid() && rest != []
      modifies this
      ensures Valid()
      ensures Remaining() == old(Remaining())[1..]
    {
      DrainNext(rest[0], curNodeSlots, Visit(rest[1..], words));
      curNodeSlots := ClearLowest(curNodeSlots);
      if curNodeSlots == {} {
        rest := rest[1..];
        if rest != [] {
          VisitFirst(rest, words);
          SomeUsed(words[rest[0]]);
          curNodeSlots := Complement(rest[0].nodeSlots);
        }
      }
    }
  }

  /** Taking the first object off a block's cursor followed by the rest of a walk. */
  lemma DrainNext(b: NodeBlock, m: set<nat>, tail: seq<(NodeBlock, nat)>)
    requires IsMask(m) && m != {}
    ensures (Drain(b, m) + tail)[1..] == Drain(b, ClearLowest(m)) + tail
    ensures ClearLowest(m) == {} ==> (Drain(b, m) + tail)[1..] == tail
  {
    assert Drain(b, m) + tail == [(b, Lowest(m))] + (Drain(b, ClearLowest(m)) + tail);
  }

  /** A walk of a non-empty block sequence starts with its first block's used slots. */
  lemma VisitFirst(blocks: seq<NodeBlock>, words: map<NodeBlock, set<nat>>)
    requires blocks != [] && forall b :: b in blocks ==> b in words && IsMask(words[b])
    ensures Visit(blocks, words) == Drain(blocks[0], Complement(words[blocks[0]])) + Visit(blocks[1..], words)
  {
  }

  /**
   * `single_node_iterator`: the used slots of one block, lowest first.
   * `nodes` stands for the block whose `nodes` array it points into.
   */
  class SingleNodeIterator {
    const nodes: NodeBlock
    var curNodeSlots: set<nat>

    ghost predicate Valid()
      reads this
    {
      IsMask(curNodeSlots)
    }

    /** The objects the iterator has still to yield, in order. */
    ghost function Remaining(): seq<(NodeBlock, nat)>
      requires Valid()
      reads this
    {
      Drain(nodes, curNodeSlots)
    }

    /** `single_node_iterator(_block)`: the cursor is the complement of the block's word. */
    constructor (b: NodeBlock)
      ensures Valid() && nodes == b
      ensures Remaining() == Drain(b, Complement(b.nodeSlots))
    {
      nodes := b;
      curNodeSlots := Complement(b.nodeSlots);
    }

    /** `get()`. */
    method Get() returns (b: NodeBlock, idx: nat)
      requires Valid() && curNodeSlots != {}
      ensures Remaining() != [] && (b, idx) == Remaining()[0]
    {
      b := nodes;
      idx := Lowest(curNodeSlots);
    }

    /** `end()`: the cursor word is zero. */
    method End() returns (e: bool)
      requires Valid()
      ensures e <==> Remaining() == []
    {
      e := curNodeSlots == {};
    }

    /** `next()`: `cur &= cur - 1`, which leaves a zero word zero. */
    method Next()
      requires Valid()
      modifies this
      ensures Valid()
      ensures Remaining() == if old(Remaining()) == [] then [] else old(Remaining())[1..]
    {
      if curNodeSlots != {} {
        curNodeSlots := ClearLowest(curNodeSlots);
      }
    }
  }

  /** `block_iterator`: the blocks of the iter list from `block` on. */
  class BlockIterator {
    var rest: seq<NodeBlock>

    constructor (blocks: seq<NodeBlock>)
      ensures rest == blocks
    {
      rest := blocks;
    }

    /** `get()`: the current block, NULL at the end. */
    method Get() returns (b: NodeBlock?)
      ensures rest == [] ==> b == null
      ensures rest != [] ==> b == rest[0]
    {
      b := if rest == [] then null else rest[0];
    }

    /** `end()`. */
    method End() returns (e: bool)
      ensures e <==> rest == []
    {
      e := rest == [];
    }

    /** `next()`: follow `next_iter`. */
    method Next()
      requires rest != []
      modifies this
      ensures rest == old(rest)[1..]
    {
      rest := rest[1..];
    }

    /** `nbegin()`: an iterator over the used slots of the current block. */
    method NBegin() returns (it: SingleNodeIterator)
      requires rest != []
      ensures fresh(it) && it.Valid() && it.nodes == rest[0]
      ensures it.Remaining() == Drain(rest[0], Complement(rest[0].nodeSlots))
    {
      it := new SingleNodeIterator(rest[0]);
    }
  }
}
