/**
  The demonstration driver: a 10 MB block size, a 2 MB request that fits the
  first block, a 20 MB request that forces a second block, a 1 MB request that
  the neighbour search sends back to the first block, then three frees through
  the pointer slots and a shutdown. Each step is a method whose contract gives
  the manager's state before and after it.
 */
module Demo {
  import opened Records
  import opened Search
  import opened Lookup
  import opened Chain
  import opened Manager

  const KB: nat := 1024
  const MB: nat := KB * KB

  /** The ledger records of the three allocations, and of the third one once
      compaction has moved it to the start of its block. */
  const First := MemoryNode(Addr(0, 0), 0, 2 * MB, 0)
  const Second := MemoryNode(Addr(1, 0), 1, 20 * MB, 0)
  const Third := MemoryNode(Addr(0, 2 * MB), 0, MB, 2 * MB)
  const ThirdCompacted := MemoryNode(Addr(0, 0), 0, MB, 0)

  function Freed(n: MemoryNode): MemoryNode
  {
    n.(address := Null)
  }

  /** The manager's state: block by block (capacity, bump offset, listed
      records) and the whole ledger. */
  ghost predicate Shape(mm: MemoryManager, current: nat, sizes: seq<nat>, iters: seq<nat>,
                        objs: seq<seq<nat>>, recs: seq<MemoryNode>)
    reads mm
  {
    && mm.Valid() && mm.Initialized() && mm.enableDefragmentation && mm.blockSize == 10 * MB
    && mm.current == current
    && |mm.blocks| == |sizes| == |iters| == |objs|
    && (forall b :: 0 <= b < |sizes| ==>
          mm.blocks[b].blockSize == sizes[b] && mm.blocks[b].memoryIterator == iters[b] && mm.blocks[b].objects == objs[b])
    && mm.records == recs
    && mm.nodeCounters == [|recs|]
  }

  method Start() returns (mm: MemoryManager)
    ensures fresh(mm) && fresh(mm.Buffers()) && Shape(mm, 0, [10 * MB], [0], [[]], [])
  {
    mm := new MemoryManager();
    mm.Initialize(10 * MB, true);
  }

  /** 2 MB: placed at the start of the first block. */
  method AllocateFirst(mm: MemoryManager) returns (testOne: nat)
    requires Shape(mm, 0, [10 * MB], [0], [[]], [])
    modifies mm
    ensures fresh(mm.Buffers() - old(mm.Buffers()))
    ensures Shape(mm, 0, [10 * MB], [2 * MB], [[0]], [First])
    ensures testOne == 0
  {
    var p := mm.AllocateMemory(2 * MB);
    assert p == Addr(0, 0);
    testOne := mm.GetDataReference(p);
  }

  /** 20 MB: larger than the block size, so a second block of exactly 20 MB is
      linked after the first and becomes current. */
  method AllocateSecond(mm: MemoryManager) returns (testTwo: nat)
    requires Shape(mm, 0, [10 * MB], [2 * MB], [[0]], [First])
    modifies mm
    ensures fresh(mm.Buffers() - old(mm.Buffers()))
    ensures Shape(mm, 1, [10 * MB, 20 * MB], [2 * MB, 20 * MB], [[0], [1]], [First, Second])
    ensures testTwo == 1
  {
    assert !Fits(mm.blocks[0], 20 * MB);
    assert CheckForAvailableBlockSpace(mm.blocks, Some(0), 20 * MB, true, true) == None;
    var p := mm.AllocateMemory(20 * MB);
    assert p == Addr(1, 0);
    testTwo := mm.GetDataReference(p);
  }

  /** 1 MB: the full second block rejects it and the neighbour search finds
      room in its predecessor, right after the first allocation. */
  method AllocateThird(mm: MemoryManager) returns (testThree: nat)
    requires Shape(mm, 1, [10 * MB, 20 * MB], [2 * MB, 20 * MB], [[0], [1]], [First, Second])
    modifies mm
    ensures fresh(mm.Buffers() - old(mm.Buffers()))
    ensures Shape(mm, 0, [10 * MB, 20 * MB], [3 * MB, 20 * MB], [[0, 2], [1]], [First, Second, Third])
    ensures testThree == 2
  {
    var p := PlaceThird(mm);
    testThree := mm.GetDataReference(p);
  }

  /** The neighbour search's part of the third allocation. */
  method PlaceThird(mm: MemoryManager) returns (p: Address)
    requires Shape(mm, 1, [10 * MB, 20 * MB], [2 * MB, 20 * MB], [[0], [1]], [First, Second])
    modifies mm
    ensures fresh(mm.Buffers() - old(mm.Buffers()))
    ensures Shape(mm, 0, [10 * MB, 20 * MB], [3 * MB, 20 * MB], [[0, 2], [1]], [First, Second, Third])
    ensures p == Addr(0, 2 * MB)
  {
    assert !Fits(mm.blocks[1], MB) && StrictlyFits(mm.blocks[0], MB);
    assert CheckForAvailableBlockSpace(mm.blocks, Some(1), MB, true, true) == Some(0);
    ghost var blocks0 := mm.blocks;
    p := mm.AllocateMemory(MB);
    assert mm.current == 0 && mm.blocks == PlacedBlocks(blocks0, 0, MB, 2);
  }

  /** Frees the first record through its slot: the third record's bytes slide
      down to offset 0 and its slot follows them, so the raw address first
      handed out for it no longer names any record. */
  method FreeFirst(mm: MemoryManager, testOne: nat)
    requires testOne == 0
    requires Shape(mm, 0, [10 * MB, 20 * MB], [3 * MB, 20 * MB], [[0, 2], [1]], [First, Second, Third])
    modifies mm, mm.Buffers()
    ensures mm.Buffers() == old(mm.Buffers())
    ensures Shape(mm, 0, [10 * MB, 20 * MB], [MB, 20 * MB], [[2], [1]], [Freed(First), Second, ThirdCompacted])
    ensures Locate(mm.blocks, mm.records, Addr(0, 2 * MB), |mm.blocks|) == None
  {
    var p := mm.records[testOne].address;
    assert FirstMatch(mm.records, mm.blocks[1].objects, p) == None;
    assert FirstMatch(mm.records, mm.blocks[0].objects, p) == Some(0);
    ghost var a, k := mm.DeallocateMemory(p);
    assert (a, k) == (0, 0);
    assert FirstMatch(mm.records, mm.blocks[1].objects, Addr(0, 2 * MB)) == None;
    assert FirstMatch(mm.records, mm.blocks[0].objects, Addr(0, 2 * MB)) == None;
  }

  /** Frees the second record through its slot, emptying the second block. */
  method FreeSecond(mm: MemoryManager, testTwo: nat)
    requires testTwo == 1
    requires Shape(mm, 0, [10 * MB, 20 * MB], [MB, 20 * MB], [[2], [1]], [Freed(First), Second, ThirdCompacted])
    modifies mm, mm.Buffers()
    ensures mm.Buffers() == old(mm.Buffers())
    ensures Shape(mm, 0, [10 * MB, 20 * MB], [MB, 0], [[2], []], [Freed(First), Freed(Second), ThirdCompacted])
  {
    var p := mm.records[testTwo].address;
    assert FirstMatch(mm.records, mm.blocks[1].objects, p) == Some(0);
    ghost var a, k := mm.DeallocateMemory(p);
    assert (a, k) == (1, 0);
  }

  /** Frees the third record through its slot, at the address compaction gave it. */
  method FreeThird(mm: MemoryManager, testThree: nat)
    requires testThree == 2
    requires Shape(mm, 0, [10 * MB, 20 * MB], [MB, 0], [[2], []], [Freed(First), Freed(Second), ThirdCompacted])
    modifies mm, mm.Buffers()
    ensures mm.Buffers() == old(mm.Buffers())
    ensures Shape(mm, 0, [10 * MB, 20 * MB], [0, 0], [[], []], [Freed(First), Freed(Second), Freed(ThirdCompacted)])
  {
    var p := mm.records[testThree].address;
    assert FirstMatch(mm.records, mm.blocks[1].objects, p) == None;
    assert FirstMatch(mm.records, mm.blocks[0].objects, p) == Some(0);
    ghost var a, k := mm.DeallocateMemory(p);
    assert (a, k) == (0, 0);
  }

  /** The scenario end to end; `mm` is the manager it used, after `Shutdown`. */
  method DemoScenario() returns (mm: MemoryManager)
    ensures mm.Valid() && !mm.Initialized() && mm.records == [] && mm.nodeCounters == []
    ensures mm.blockSize == 10 * MB && mm.enableDefragmentation
  {
    mm := Start();
    var testOne := AllocateFirst(mm);
    var testTwo := AllocateSecond(mm);
    var testThree := AllocateThird(mm);
    FreeFirst(mm, testOne);
    FreeSecond(mm, testTwo);
    FreeThird(mm, testThree);
    mm.Shutdown();
  }
}
