/**
  The `MemoryManager`: its static state as the fields of one object, and the
  operations `GetHead`, `Initialize`, `Shutdown`, `AllocateMemory`,
  `DeallocateMemory` and `GetDataReference` as methods on it.
 */
module Manager {
  import opened Records
  import opened Tiling
  import opened Bytes
  import opened Search
  import opened Lookup
  import opened Chain

  class MemoryManager {
    /** m_BlockSize: the default capacity of a new data block. */
    var blockSize: nat
    /** The data block chain, oldest first; the last block is the head that
        `m_Next` leads to, and the block before block `b` is its `m_Previous`. */
    var blocks: seq<ObjectDataBlock>
    /** m_CurrentBlock, as a position in `blocks`. */
    var current: nat
    /** Every allocation record ever made, in allocation order; record `id` is
        slot `id % NodeMax` of ledger chunk `id / NodeMax`. */
    var records: seq<MemoryNode>
    /** m_NodeCounter of each ledger chunk, oldest first; the last one is m_CurrentNode. */
    var nodeCounters: seq<nat>
    /** m_EnableDefragmentation. */
    var enableDefragmentation: bool

    /** `Initialize` has been called since construction or the last `Shutdown`. */
    ghost predicate Initialized()
      reads this
    {
      blocks != []
    }

    ghost predicate Valid()
      reads this
    {
      && (blocks == [] <==> nodeCounters == [])
      && (blocks != [] ==> current < |blocks|)
      && LedgerValid(nodeCounters, |records|)
      && ChainValid(blocks, records, enableDefragmentation)
    }

    /** The byte buffers of the chain. */
    ghost function Buffers(): set<array<bv8>>
      reads this
    {
      set b | 0 <= b < |blocks| :: blocks[b].memoryBlock
    }

    /** The zero-initialised statics, before any `Initialize`. */
    constructor ()
      ensures Valid() && !Initialized()
      ensures blockSize == 0 && !enableDefragmentation && records == [] && nodeCounters == []
    {
      blockSize := 0;
      blocks := [];
      current := 0;
      records := [];
      nodeCounters := [];
      enableDefragmentation := false;
    }

    /** Walks `m_Next` from the current block to the head of the chain. */
    method GetHead() returns (head: nat)
      requires current < |blocks|
      ensures head == |blocks| - 1
    {
      head := current;
      while head + 1 < |blocks|
        invariant current <= head < |blocks|
        decreases |blocks| - head
      {
        head := head + 1;
      }
    }

    /** Starts a chain of one empty block of `sizeOfBlocks` bytes and a ledger of
        one empty chunk. Nothing stops a second call: it simply starts over, and
        the previous chain and ledger are no longer reachable. */
    method Initialize(sizeOfBlocks: nat, enableDefrag: bool)
      modifies this
      ensures Valid() && Initialized()
      ensures enableDefragmentation
      ensures blockSize == sizeOfBlocks
      ensures |blocks| == 1 && current == 0 && fresh(blocks[0].memoryBlock)
      ensures blocks[0].blockSize == sizeOfBlocks && blocks[0].memoryIterator == 0 && blocks[0].objects == []
      ensures records == [] && nodeCounters == [0]
    {
      // The argument `enableDefrag` is ignored: compaction is always switched on.
      enableDefragmentation := true;
      blockSize := sizeOfBlocks;
      var memory := new bv8[blockSize];
      blocks := [ObjectDataBlock(memory, blockSize, 0, [])];
      current := 0;
      nodeCounters := [0];
      records := [];
    }

    /** Drops the whole chain and ledger; the manager is back to its
        uninitialised state, keeping only its settings. */
    method Shutdown()
      requires Valid() && Initialized()
      modifies this
      ensures Valid() && !Initialized()
      ensures records == [] && nodeCounters == []
      ensures blockSize == old(blockSize) && enableDefragmentation == old(enableDefragmentation)
    {
      var head := GetHead();
      blocks := [];
      current := 0;
      records := [];
      nodeCounters := [];
    }

    /** Places `size` bytes at the bump offset of the current block if they fit,
        else of the block the neighbour search finds, else of a new block of
        `max(m_BlockSize, size)` bytes linked after the head. The chosen block
        becomes current; a new record is appended to the ledger and to the block. */
    method AllocateMemory(size: nat) returns (p: Address)
      requires Valid() && Initialized()
      modifies this
      ensures Valid() && Initialized()
      ensures current == ChooseBlock(old(blocks), old(current), size)
      ensures current < |old(blocks)| ==> |blocks| == |old(blocks)|
      ensures current == |old(blocks)| ==>
        |blocks| == |old(blocks)| + 1 && fresh(blocks[current].memoryBlock) &&
        blocks[current].blockSize == Max(blockSize, size)
      ensures var chain := if current < |old(blocks)| then old(blocks)
                           else old(blocks) + [ObjectDataBlock(blocks[current].memoryBlock, Max(blockSize, size), 0, [])];
        && blocks == PlacedBlocks(chain, current, size, |old(records)|)
        && records == old(records) + [PlacedNode(chain, current, size)]
        && p == Addr(current, chain[current].memoryIterator)
      ensures nodeCounters == AddNode(old(nodeCounters))
      ensures blockSize == old(blockSize) && enableDefragmentation == old(enableDefragmentation)
    {
      // Take the next ledger slot, opening a new chunk when the current one is full.
      AddNodeKeepsLedger(nodeCounters, |records|);
      if nodeCounters[|nodeCounters| - 1] >= NodeMax {
        nodeCounters := nodeCounters + [0];
      }
      nodeCounters := nodeCounters[|nodeCounters| - 1 := nodeCounters[|nodeCounters| - 1] + 1];
      assert nodeCounters == AddNode(old(nodeCounters));

      ghost var chain := SelectBlock(size);
      p := PlaceRecord(size);
      assert LedgerValid(nodeCounters, |records|);
    }

    /** The block-choosing part of `AllocateMemory`: stays on the current block
        if the request fits, else moves to the block the neighbour search finds,
        else moves to the head and links a new block after it. `chain` is the
        chain with the new block, if any. */
    method SelectBlock(size: nat) returns (ghost chain: seq<ObjectDataBlock>)
      requires current < |blocks| && ChainValid(blocks, records, enableDefragmentation)
      modifies this`blocks, this`current
      ensures ChainValid(blocks, records, enableDefragmentation) && blocks == chain
      ensures current == ChooseBlock(old(blocks), old(current), size)
      ensures current < |blocks| && Fits(blocks[current], size)
      ensures chain == if current < |old(blocks)| then old(blocks)
                       else old(blocks) + [ObjectDataBlock(blocks[current].memoryBlock, Max(blockSize, size), 0, [])]
      ensures current == |old(blocks)| ==> fresh(blocks[current].memoryBlock)
    {
      // The current block is left only when the request overflows it; an exact
      // fill is accepted here, unlike in the neighbour search.
      if blocks[current].blockSize < blocks[current].memoryIterator + size {
        var blockTest := CheckForAvailableBlockSpace(blocks, Some(current), size, true, true);
        if blockTest.None? {
          if current + 1 < |blocks| {
            current := GetHead();
          }
          var newSize := Max(blockSize, size);
          var memory := new bv8[newSize];
          var added := ObjectDataBlock(memory, newSize, 0, []);
          GrowKeepsChain(blocks, records, enableDefragmentation, added);
          blocks := blocks + [added];
          current := current + 1;
        } else {
          current := blockTest.value;
        }
      }
      ChooseBlockHasRoom(old(blocks), old(current), size);
      chain := blocks;
    }

    /** The bump part of `AllocateMemory`: the request takes the bytes at the
        current block's bump offset, the offset moves up by `size`, and a record
        of the placement is appended to the ledger and to the block's list. */
    method PlaceRecord(size: nat) returns (p: Address)
      requires current < |blocks| && Fits(blocks[current], size) && ChainValid(blocks, records, enableDefragmentation)
      modifies this`blocks, this`records
      ensures ChainValid(blocks, records, enableDefragmentation)
      ensures blocks == PlacedBlocks(old(blocks), current, size, |old(records)|)
      ensures records == old(records) + [PlacedNode(old(blocks), current, size)]
      ensures p == Addr(current, old(blocks)[current].memoryIterator)
    {
      var id := |records|;
      PlaceKeepsChain(blocks, records, enableDefragmentation, current, size);
      var memToWriteTo := blocks[current].memoryIterator;
      blocks := blocks[current := blocks[current].(memoryIterator := memToWriteTo + size)];
      p := Addr(current, memToWriteTo);
      records := records + [MemoryNode(p, current, size, memToWriteTo)];
      blocks := blocks[current := blocks[current].(objects := blocks[current].objects + [id])];
      assert blocks == PlacedBlocks(old(blocks), current, size, id);
    }

    /** The inner scan of both lookups: the first entry of block `b`'s list whose
        record has address `p`. */
    method FindInBlock(b: nat, p: Address) returns (found: Option<nat>)
      requires b < |blocks|
      ensures found == FirstMatch(records, blocks[b].objects, p)
    {
      var objs := blocks[b].objects;
      var i := 0;
      while i < |objs|
        invariant 0 <= i <= |objs|
        invariant forall j :: 0 <= j < i ==> !Holds(records, objs[j], p)
      {
        if Holds(records, objs[i], p) {
          found := Some(i);
          return;
        }
        i := i + 1;
      }
      found := None;
    }

    /** Frees the record that owns address `p`: the first one found scanning from
        the head back through the chain, and in each block in list order. The
        source fails an assertion when there is none, so one is required. */
    method DeallocateMemory(p: Address) returns (ghost a: nat, ghost k: nat)
      requires Valid() && Initialized()
      requires Locate(blocks, records, p, |blocks|).Some?
      modifies this, Buffers()
      ensures old(Locate(blocks, records, p, |blocks|)) == Some((a, k))
      ensures a < |old(blocks)| && k < |old(blocks)[a].objects|
      ensures Valid() && Initialized()
      ensures ReleasedFrom(old(blocks), old(records), blocks, records, enableDefragmentation, a, k)
      ensures var r := old(records)[old(blocks)[a].objects[k]];
        FreedBytes(blocks[a].memoryBlock[..], old(blocks[a].memoryBlock[..]), enableDefragmentation,
                   r.iteratorBeforeAllocation, r.sizeOfAllocation, old(blocks[a].memoryIterator))
      ensures forall i :: 0 <= i < |blocks| && i != a ==> blocks[i].memoryBlock[..] == old(blocks[i].memoryBlock[..])
      ensures current == old(current) && nodeCounters == old(nodeCounters)
      ensures blockSize == old(blockSize) && enableDefragmentation == old(enableDefragmentation)
    {
      var b, i := FindOwner(p);
      a, k := b, i;
      ReleaseNode(b, i);
    }

    /** The scan of `DeallocateMemory`: from the head back through `m_Previous`,
        and inside each block in list order, for the record whose address is `p`. */
    method FindOwner(p: Address) returns (a: nat, k: nat)
      requires current < |blocks|
      requires Locate(blocks, records, p, |blocks|).Some?
      ensures Locate(blocks, records, p, |blocks|) == Some((a, k))
    {
      var b: int := GetHead();
      var found: Option<nat> := None;
      while 0 <= b
        invariant -1 <= b < |blocks|
        invariant found.None?
        invariant Locate(blocks, records, p, b + 1) == Locate(blocks, records, p, |blocks|)
        decreases b + 1
      {
        found := FindInBlock(b, p);
        if found.Some? {
          break;
        }
        b := b - 1;
      }
      if found.None? {
        // p is owned by no record: the source's assert(false).
        assert false;
      }
      a, k := b, found.value;
    }

    /** Frees record `k` of block `a`: with compaction the bytes above it slide
        down over it and the records after it are rebased; then its address is
        nulled and it is erased from the block's list. Its ledger slot stays. */
    method ReleaseNode(a: nat, k: nat)
      requires Valid() && a < |blocks| && k < |blocks[a].objects|
      modifies this, blocks[a].memoryBlock
      ensures Valid() && |blocks| == |old(blocks)|
      ensures ReleasedFrom(old(blocks), old(records), blocks, records, enableDefragmentation, a, k)
      ensures var r := old(records)[old(blocks)[a].objects[k]];
        FreedBytes(blocks[a].memoryBlock[..], old(blocks[a].memoryBlock[..]), enableDefragmentation,
                   r.iteratorBeforeAllocation, r.sizeOfAllocation, old(blocks[a].memoryIterator))
      ensures forall i :: 0 <= i < |blocks| && i != a ==> blocks[i].memoryBlock[..] == old(blocks[i].memoryBlock[..])
      ensures current == old(current) && nodeCounters == old(nodeCounters)
      ensures blockSize == old(blockSize) && enableDefragmentation == old(enableDefragmentation)
    {
      var objs := blocks[a].objects;
      var id := objs[k];
      assert Owned(records, id, a);
      var mem := blocks[a].memoryBlock;
      ghost var blocks0, records0, bytes0 := blocks, records, mem[..];
      ghost var r := records[id];
      if enableDefragmentation {
        ChainCompactable(blocks, records, enableDefragmentation, a, k);
        CompactBlock(a, k);
        assert id !in objs[k + 1..] by {
          assert Distinct(objs);
        }
      }
      assert FreedBytes(mem[..], bytes0, enableDefragmentation, r.iteratorBeforeAllocation, r.sizeOfAllocation, blocks0[a].memoryIterator);
      // Null out the freed record's address and erase it from the block's list.
      records := records[id := records[id].(address := Null)];
      blocks := blocks[a := blocks[a].(objects := objs[..k] + objs[k + 1..])];

      assert ReleasedFrom(blocks0, records0, blocks, records, enableDefragmentation, a, k);
      assert ChainValid(blocks, records, enableDefragmentation) by {
        ReleaseKeepsChain(blocks0, records0, blocks, records, enableDefragmentation, a, k);
      }
    }

    /** The compacting part of a free of record `k` of block `a` (offset `o`,
        size `s`): the bytes in `[o + s, m_MemoryIterator)` move down to `o`, the
        bump offset drops by `s`, and every record listed after the freed one
        whose offset is above `o` moves down by `s`, its address following. */
    method CompactBlock(a: nat, k: nat)
      requires Compactable(blocks, records, a, k)
      modifies this`blocks, this`records, blocks[a].memoryBlock
      ensures |blocks| == |old(blocks)|
      ensures blocks == old(blocks)[a := old(blocks)[a].(memoryIterator := blocks[a].memoryIterator)]
      ensures var r := old(records)[old(blocks)[a].objects[k]];
        var o, s, it := r.iteratorBeforeAllocation, r.sizeOfAllocation, old(blocks)[a].memoryIterator;
        && blocks[a].memoryIterator + s == it
        && blocks[a].memoryBlock[..] == Moved(old(blocks[a].memoryBlock[..]), o, o + s, it - (o + s))
        && |records| == |old(records)|
        && forall i :: 0 <= i < |records| ==>
             if i in old(blocks)[a].objects[k + 1..] && old(records)[i].iteratorBeforeAllocation > o
             then RebasedFrom(records[i], old(records)[i], a, s)
             else records[i] == old(records)[i]
    {
      var objs := blocks[a].objects;
      var id := objs[k];
      var r := records[id];
      var mem := blocks[a].memoryBlock;

      var allocBefore := r.iteratorBeforeAllocation;
      var allocAfter := allocBefore + r.sizeOfAllocation;
      var allocCurrent := blocks[a].memoryIterator;
      MemMove(mem, allocBefore, allocAfter, allocCurrent - allocAfter);
      blocks := blocks[a := blocks[a].(memoryIterator := allocCurrent - r.sizeOfAllocation)];

      var rs := records;
      var j := k + 1;
      while j < |objs|
        invariant k + 1 <= j <= |objs|
        invariant |rs| == |records|
        invariant forall i :: 0 <= i < |records| ==>
          if i in objs[k + 1..j] && records[i].iteratorBeforeAllocation > allocBefore
          then RebasedFrom(rs[i], records[i], a, r.sizeOfAllocation)
          else rs[i] == records[i]
      {
        assert objs[k + 1..j + 1] == objs[k + 1..j] + [objs[j]];
        assert objs[j] !in objs[k + 1..j];
        var n := rs[objs[j]];
        if n.iteratorBeforeAllocation > allocBefore {
          var o := n.iteratorBeforeAllocation - r.sizeOfAllocation;
          rs := rs[objs[j] := n.(iteratorBeforeAllocation := o, address := Addr(a, o))];
        }
        j := j + 1;
      }
      assert objs[k + 1..j] == objs[k + 1..];
      records := rs;
    }

    /** The pointer slot (the record id) of the record whose address is `p`. The
        source's loop re-reads `m_CurrentBlock->m_Previous` on every pass, so it
        searches the current block, then the block before it, and would then
        search that block again forever; when the current block is the first
        one, the loop ends at the null predecessor and the source asserts false.
        Either way the record must be in one of the two. */
    method GetDataReference(p: Address) returns (slot: nat)
      requires Valid() && Initialized()
      requires FirstMatch(records, blocks[current].objects, p).Some? ||
               (current > 0 && FirstMatch(records, blocks[current - 1].objects, p).Some?)
      ensures slot < |records| && records[slot].address == p
      ensures p == Addr(records[slot].block, records[slot].iteratorBeforeAllocation)
      ensures FirstMatch(records, blocks[current].objects, p).Some? ==>
        slot == blocks[current].objects[FirstMatch(records, blocks[current].objects, p).value]
      ensures FirstMatch(records, blocks[current].objects, p).None? ==>
        current > 0 && FirstMatch(records, blocks[current - 1].objects, p).Some? &&
        slot == blocks[current - 1].objects[FirstMatch(records, blocks[current - 1].objects, p).value]
    {
      var found := FindInBlock(current, p);
      if found.Some? {
        slot := blocks[current].objects[found.value];
        assert Owned(records, slot, current);
        return;
      }
      // A second pass over `m_CurrentBlock->m_Previous`.
      found := FindInBlock(current - 1, p);
      slot := blocks[current - 1].objects[found.value];
      assert Owned(records, slot, current - 1);
    }
  }
}
