/**
  The plain data of the allocator: addresses, allocation records (`MemoryNode`),
  data blocks (`ObjectDataBlock`) and the bookkeeping of the record ledger
  (`MemoryNodeBlock` chunks of 100 slots).
 */
module Records {

  datatype Option<T> = None | Some(value: T)

  /** A raw address handed to callers: a byte offset inside one data block of the
      chain (blocks are named by their position in the chain), or the null pointer. */
  datatype Address = Null | Addr(block: nat, offset: nat)

  /** One allocation record. `address` is the record's pointer slot (the slot
      `GetDataReference` hands out); it is rewritten by compaction and nulled on free. */
  datatype MemoryNode = MemoryNode(
    address: Address,             // m_Object
    block: nat,                   // m_Block, as a position in the chain
    sizeOfAllocation: nat,        // m_SizeOfAllocation
    iteratorBeforeAllocation: nat // m_IteratorBeforeAllocation: the record's offset in its block
  )

  /** One data block: a fixed-size byte buffer with a bump offset and the ids of
      the records placed in it, in allocation order (m_Objects). */
  datatype ObjectDataBlock = ObjectDataBlock(
    memoryBlock: array<bv8>,
    blockSize: nat,
    memoryIterator: nat,
    objects: seq<nat>
  )

  /** The fit test applied to the current block: the source rejects it only when
      `m_BlockSize < m_MemoryIterator + size`, so an exact fill is accepted. */
  predicate Fits(b: ObjectDataBlock, size: nat)
  {
    b.memoryIterator + size <= b.blockSize
  }

  /** The fit test applied to neighbouring blocks, which is strict. */
  predicate StrictlyFits(b: ObjectDataBlock, size: nat)
  {
    b.blockSize > b.memoryIterator + size
  }

  function Max(a: nat, b: nat): nat
  {
    if a > b then a else b
  }

  /** Slots per ledger chunk (the literal 100 the allocator tests against). */
  const NodeMax: nat := 100

  /** Ledger shape: one counter per chunk, oldest first, the last one current.
      Every chunk but the current one is full, and the records fill the slots
      densely, chunk after chunk. */
  ghost predicate LedgerValid(nodeCounters: seq<nat>, recordCount: nat)
  {
    if nodeCounters == [] then recordCount == 0
    else
      && (forall i :: 0 <= i < |nodeCounters| - 1 ==> nodeCounters[i] == NodeMax)
      && nodeCounters[|nodeCounters| - 1] <= NodeMax
      && recordCount == NodeMax * (|nodeCounters| - 1) + nodeCounters[|nodeCounters| - 1]
  }

  /** The counters after one more record is placed: a full current chunk is first
      followed by a fresh one, then the current chunk's counter is bumped. */
  function AddNode(nodeCounters: seq<nat>): seq<nat>
    requires nodeCounters != []
  {
    var c := if nodeCounters[|nodeCounters| - 1] >= NodeMax then nodeCounters + [0] else nodeCounters;
    c[..|c| - 1] + [c[|c| - 1] + 1]
  }

  /** Where record number `id` lives: (chunk, slot). */
  function SlotOf(id: nat): (nat, nat)
  {
    (id / NodeMax, id % NodeMax)
  }

  /** Placing a record keeps the ledger dense and bounded, never touches an
      earlier chunk, and puts the new record in the last slot used of the
      current chunk; a new chunk appears exactly when the old one was full. */
  lemma AddNodeKeepsLedger(nodeCounters: seq<nat>, recordCount: nat)
    requires nodeCounters != [] && LedgerValid(nodeCounters, recordCount)
    ensures LedgerValid(AddNode(nodeCounters), recordCount + 1)
    ensures var c' := AddNode(nodeCounters);
      && |c'| == |nodeCounters| + (if nodeCounters[|nodeCounters| - 1] == NodeMax then 1 else 0)
      && c'[..|nodeCounters| - 1] == nodeCounters[..|nodeCounters| - 1]
      && SlotOf(recordCount) == (|c'| - 1, c'[|c'| - 1] - 1)
  {
    var n := |nodeCounters|;
    var c' := AddNode(nodeCounters);
    if nodeCounters[n - 1] == NodeMax {
      assert c' == nodeCounters + [1];
      assert recordCount == NodeMax * n;
    } else {
      assert c' == nodeCounters[..n - 1] + [nodeCounters[n - 1] + 1];
      assert recordCount == NodeMax * (n - 1) + nodeCounters[n - 1];
    }
  }
}
