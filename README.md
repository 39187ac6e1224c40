# Dayton's Memory Manager in Dafny

This project models the allocator in `DaytonsMemoryManager/MemoryManager.h` and proves properties of the model. The allocator is a static `MemoryManager` class. It hands out memory from a chain of fixed-size data blocks (`ObjectDataBlock`) by bump allocation. Each allocation gets one record (`MemoryNode`) in a ledger of 100-slot chunks (`MemoryNodeBlock`).

- **Allocation.** A request goes to the current block when it fits. Otherwise a recursive neighbour search (`CheckForAvailableBlockSpace`) looks for another block. If that also fails, a new block is linked after the head. It has `max(block size, request)` bytes.
- **Freeing.** `DeallocateMemory` finds the record owning a raw address, scanning from the head of the chain backwards. With compaction on, it `memmove`s the bytes above the freed record down over it and lowers the bump offset. It then rebases every later record of that block. Finally it nulls the record's pointer slot and unlists the record.
- **Lookup.** `GetDataReference` returns the record's pointer slot, which compaction keeps up to date.

How the model is organised:

- `records.dfy` (module `Records`): addresses, records, blocks, the two fit tests, and the ledger's chunks of 100.
- `search.dfy` (module `Search`): the neighbour search, as a recursive function. It also gives a reference description of the order in which the search visits blocks.
- `tiling.dfy` (module `Tiling`): the layout of one block as spans (offset, size) in list order. Defines what "ordered" and "tiled" mean, and what compaction does to spans.
- `bytes.dfy` (module `Bytes`): `memmove` on a byte array.
- `lookup.dfy` (module `Lookup`): the scan that finds the owner of an address.
- `chain.dfy` (module `Chain`): the chain invariant `ChainValid`, and lemmas that allocation, growth and freeing keep it. It also states what a free does to the ledger and to the bytes of the surviving records.
- `manager.dfy` (module `Manager`): `class MemoryManager`. Its fields are the allocator's static state, and its methods are the allocator's operations, written imperatively.
- `demo.dfy` (module `Demo`): the scenario of `DaytonsMemoryManager/main.cpp`, with the manager's exact state after each step.

Representation choices:

- A block is named by its position in the chain. Position 0 is the oldest block and the last position is the head; `m_Previous` is position `i - 1` and `m_Next` is `i + 1`.
- A raw pointer is `Addr(block, offset)` or `Null`.
- A record is named by its index in the ledger `records`. The chunk counters are `nodeCounters`, oldest first.

Source behaviours the model reproduces:

- **Initialize** ignores its `EnableDefrag` argument and always switches compaction on. It has no guard against being called twice.
- **Fit tests.** The current block accepts an exact fill (`<`), but a neighbour must fit strictly (`>`).
- **Neighbour search.** The second recursive call is made on `prev` again, not on `next`. Its result is discarded, because the source re-tests the first call's result. So the only block above the current one that the search ever looks at is its immediate successor.
- **GetDataReference** looks only in the current block and then in the block before it. When the current block has a predecessor, the search repeats that predecessor forever. When the current block is the first block, the loop ends and the source reaches `assert(false)`. The model therefore requires that the address is listed in one of those two blocks.

Two behaviours one might expect that the code does not have, and the model follows the code:

- With compaction off, freeing does not zero the freed bytes. It only nulls the pointer slot and unlists the record.
- `Initialize` is not idempotent: a second call starts a new chain.

Proved, in outline:

- Every operation keeps `Valid()`. This covers the chain invariant (no overlap, ownership, listing, and tiling from offset 0 under compaction) and the ledger shape.
- Allocation places the record at the old bump offset of the block that `ChooseBlock` names. This is the current block when it fits, otherwise the block the search finds, otherwise a new block.
- The search returns exactly the first strictly fitting block in the order predecessor, successor, then the predecessor's predecessors. It returns null exactly when none of those blocks strictly fits, and blocks beyond the successor never matter.
- With compaction, a free rebases exactly the records listed after the freed one and lowers the bump offset by the freed size. Without compaction, it keeps the bump offset and rebases nothing. In both modes, every surviving record of that block keeps its bytes at its (possibly new) offset.
- The scenario of `main.cpp` works as follows:
  1. The 2 MB request lands at the start of block 0.
  2. The 20 MB request makes a new 20 MB block.
  3. The 1 MB request goes back to block 0 at offset 2 MB.
  4. Freeing the first record moves the third record to offset 0. The address first handed out for it then names no record.

## Model

| member | source | states |
|---|---|---|
| Records.AddNodeKeepsLedger | DaytonsMemoryManager/MemoryManager.h:185-195 | after one more record the ledger is still dense with chunks of at most 100; earlier chunks are untouched; a new chunk is added exactly when the current one held 100; the new record takes the last used slot of the current chunk |
| Search.CheckForAvailableBlockSpace | DaytonsMemoryManager/MemoryManager.h:108-142 | from null it answers null; any block it answers is in the chain and strictly fits the request |
| Search.PredecessorSearch | DaytonsMemoryManager/MemoryManager.h:117-133 | the backward-only search from block b answers the first strictly fitting block among b-1, b-2, ..., 0 |
| Search.SearchStep | DaytonsMemoryManager/MemoryManager.h:113-142 | one level of the search: predecessor if it strictly fits, else successor if it strictly fits, else the backward search from the predecessor; the discarded "after next" call never changes the answer |
| Search.SearchVisitsInOrder | DaytonsMemoryManager/MemoryManager.h:108-142 | the full search equals the first strict fit in the order predecessor, successor, predecessors of the predecessor nearest first |
| Search.SearchOrderCovers | DaytonsMemoryManager/MemoryManager.h:124-137 | the blocks the search looks at are exactly those below the start block and its immediate successor |
| Search.SearchResult | DaytonsMemoryManager/MemoryManager.h:108-142 | the answer is a strictly fitting block below the start or right after it; null exactly when no such block strictly fits |
| Search.SearchIgnoresFarBlocks | DaytonsMemoryManager/MemoryManager.h:135-138 | two chains that agree up to the successor of the start block get the same answer: blocks further ahead are never searched |
| Search.ChooseBlockHasRoom | DaytonsMemoryManager/MemoryManager.h:201-223 | the chosen existing block has room for the request; a new block is chosen exactly when the current block does not fit and no searched block strictly fits |
| Tiling.TiledIsOrdered | DaytonsMemoryManager/MemoryManager.h:226-228 | spans that tile a block do not overlap and end at or below the bump offset |
| Tiling.OrderedBefore | DaytonsMemoryManager/MemoryManager.h:226-240 | in list order, an earlier record ends at or before the start of any later one |
| Tiling.TiledFromZero | DaytonsMemoryManager/MemoryManager.h:226-228 | under tiling no record starts below offset 0 |
| Tiling.AppendOrdered | DaytonsMemoryManager/MemoryManager.h:226-240 | bump allocation at the bump offset keeps the block ordered, with the offset raised by the size |
| Tiling.AppendTiled | DaytonsMemoryManager/MemoryManager.h:226-240 | bump allocation keeps a tiled block tiled, with the offset raised by the size |
| Tiling.RemoveOrdered | DaytonsMemoryManager/MemoryManager.h:283-285 | unlisting a record without compaction leaves the block ordered under the same bump offset |
| Tiling.CompactTiled | DaytonsMemoryManager/MemoryManager.h:260-281 | freeing with compaction keeps the block tiled from 0, with the bump offset lowered by the freed size |
| Tiling.CompactedAfter | DaytonsMemoryManager/MemoryManager.h:275-280 | every record listed after the freed one is moved down by exactly the freed size (the `offset > allocBefore` test never leaves one behind) |
| Bytes.MemMove | DaytonsMemoryManager/MemoryManager.h:268 | the buffer afterwards holds the source range at the destination, as if copied through a temporary, and is unchanged elsewhere |
| Bytes.MovedBelow | DaytonsMemoryManager/MemoryManager.h:268 | bytes below the destination are left as they were |
| Bytes.MovedWindow | DaytonsMemoryManager/MemoryManager.h:268 | any window of the moved range arrives intact, displaced by the distance of the move |
| Lookup.FirstMatch | DaytonsMemoryManager/MemoryManager.h:251-254 | the answer is the first position whose record holds the address; none means no listed record holds it |
| Lookup.Locate | DaytonsMemoryManager/MemoryManager.h:249-255 | the answer is the highest block listing a record that holds the address, at its first such position; none means no block does |
| Lookup.LocateFindsAny | DaytonsMemoryManager/MemoryManager.h:249-292 | the owner scan succeeds exactly when some block lists a record holding the address |
| Chain.RecordLayout | DaytonsMemoryManager/MemoryManager.h:226-240 | in a valid chain a listed record lies below the bump offset, after its list predecessors and before its list successors |
| Chain.ChainCompactable | DaytonsMemoryManager/MemoryManager.h:262-269 | in a valid chain the freed record and everything after it lie inside the used part of the buffer, so the memmove and the iterator decrement are in range |
| Chain.LiveInBounds | DaytonsMemoryManager/MemoryManager.h:231 | a record whose pointer slot is not null lies inside its block's buffer |
| Chain.PlaceKeepsOwnership | DaytonsMemoryManager/MemoryManager.h:233-240 | after bump allocation every listed record still points back at its block and at its offset there, and no block lists an id twice |
| Chain.PlaceKeepsLayout | DaytonsMemoryManager/MemoryManager.h:226-240 | after bump allocation every block is still ordered, and tiled when compaction is on |
| Chain.PlaceKeepsChain | DaytonsMemoryManager/MemoryManager.h:226-240 | bump allocation into a block with room keeps the whole chain invariant |
| Chain.GrowKeepsChain | DaytonsMemoryManager/MemoryManager.h:207-220 | linking an empty block with a fresh buffer after the head keeps the chain invariant |
| Chain.ReleasedRecords | DaytonsMemoryManager/MemoryManager.h:257-285 | a free nulls exactly the freed record's slot; records before it or in other blocks are untouched; later records stay owned, keep their size, and move down by the freed size only under compaction |
| Chain.ReleaseKeepsOwned | DaytonsMemoryManager/MemoryManager.h:274-285 | after a free every listed record is still owned by its block at its (possibly rebased) offset |
| Chain.ReleaseKeepsDistinct | DaytonsMemoryManager/MemoryManager.h:285 | erasing one list entry keeps every block's list free of duplicates |
| Chain.ReleaseKeepsListed | DaytonsMemoryManager/MemoryManager.h:284-285 | after a free every record with a non-null slot is still listed by its block |
| Chain.ReleasedSpans | DaytonsMemoryManager/MemoryManager.h:257-285 | the freed block's spans become the compacted spans (with compaction) or the spans with one removed (without) |
| Chain.ReleaseKeepsOtherSpans | DaytonsMemoryManager/MemoryManager.h:257-285 | a free does not change the layout of any other block |
| Chain.ReleaseKeepsChain | DaytonsMemoryManager/MemoryManager.h:257-286 | a free keeps the whole chain invariant, with and without compaction |
| Chain.CompactionKeepsPayload | DaytonsMemoryManager/MemoryManager.h:263-280 | after the memmove every other record of the block finds its old bytes at its rebased offset |
| Chain.PayloadMoves | DaytonsMemoryManager/MemoryManager.h:268-280 | a record below the freed one keeps its bytes in place; a record above it finds its bytes moved down by the freed size |
| Chain.ReleaseKeepsPayload | DaytonsMemoryManager/MemoryManager.h:257-285 | after a free, a live record of the freed block still reads the bytes it had before |
| Chain.ReleaseKeepsPayloads | DaytonsMemoryManager/MemoryManager.h:257-285 | after a free every live record of the freed block reads its old bytes, and records of other blocks are unchanged |
| Manager.MemoryManager.constructor | DaytonsMemoryManager/MemoryManager.h:313-321 | the zero-initialised statics: no chain, no ledger, block size 0, compaction off |
| Manager.MemoryManager.GetHead | DaytonsMemoryManager/MemoryManager.h:145-152 | walks forward from the current block and returns the last block of the chain |
| Manager.MemoryManager.Initialize | DaytonsMemoryManager/MemoryManager.h:158-169 | one fresh empty block of the requested size becomes current, with one empty ledger chunk, the block size stored, and compaction on whatever was passed |
| Manager.MemoryManager.Shutdown | DaytonsMemoryManager/MemoryManager.h:172-177 | the chain and the ledger are released; block size and compaction flag are unchanged |
| Manager.MemoryManager.AllocateMemory | DaytonsMemoryManager/MemoryManager.h:180-243 | keeps the invariant; the new current block is the one `ChooseBlock` names, a new block of `max(block size, size)` bytes when nothing fits; the record sits at that block's old bump offset and is listed last; the returned address is that offset; the ledger gets one more slot |
| Manager.MemoryManager.SelectBlock | DaytonsMemoryManager/MemoryManager.h:200-224 | the current block becomes the `ChooseBlock` answer and has room; when that is a new block it is fresh, empty and linked after the old head |
| Manager.MemoryManager.PlaceRecord | DaytonsMemoryManager/MemoryManager.h:226-242 | the bump offset rises by the size, the record is appended to the ledger and to the block's list, and the returned address is the old offset |
| Manager.MemoryManager.FindInBlock | DaytonsMemoryManager/MemoryManager.h:251-254 | returns the first position in the block's list whose record holds the address, or none |
| Manager.MemoryManager.FindOwner | DaytonsMemoryManager/MemoryManager.h:249-255 | the head-to-tail scan stops at exactly the (block, position) that `Locate` names |
| Manager.MemoryManager.DeallocateMemory | DaytonsMemoryManager/MemoryManager.h:246-294 | frees the record `Locate` finds: the new chain and ledger are `ReleasedFrom` the old ones, the freed block's bytes are the memmoved bytes (compaction) or unchanged, other buffers, current block and ledger counters are unchanged, and the invariant holds |
| Manager.MemoryManager.ReleaseNode | DaytonsMemoryManager/MemoryManager.h:257-286 | compaction (if on), nulling the slot and erasing the list entry, with the same new state as `DeallocateMemory` |
| Manager.MemoryManager.CompactBlock | DaytonsMemoryManager/MemoryManager.h:260-281 | the bytes above the freed record are memmoved down over it, the bump offset drops by the freed size, every later record above the freed offset is rebased, and nothing else changes |
| Manager.MemoryManager.GetDataReference | DaytonsMemoryManager/MemoryManager.h:298-310 | returns the record whose slot holds the address and which lists it, the first match in the current block, or else the first in the block before it |
| Demo.DemoScenario | DaytonsMemoryManager/main.cpp:3-24 | the whole scenario runs without violating any precondition, and ends after `Shutdown` with no chain and no ledger, the 10 MB block size and compaction still on |
| Demo.Start | DaytonsMemoryManager/main.cpp:5 | a 10 MB block size gives one fresh empty 10 MB block, an empty ledger and compaction on |
| Demo.AllocateFirst | DaytonsMemoryManager/main.cpp:5-8 | 2 MB lands at offset 0 of the first block and its slot is record 0 |
| Demo.AllocateSecond | DaytonsMemoryManager/main.cpp:10-11 | 20 MB does not fit and the search finds nothing, so a second block of exactly 20 MB becomes current with the record at offset 0 |
| Demo.AllocateThird | DaytonsMemoryManager/main.cpp:13-15 | the 1 MB request lands in the first block at offset 2 MB and its slot is record 2 |
| Demo.PlaceThird | DaytonsMemoryManager/main.cpp:13-15 | the full second block rejects 1 MB, the search finds room in the first block, and the record lands at offset 2 MB |
| Demo.FreeFirst | DaytonsMemoryManager/main.cpp:18 | freeing the first record moves the third to offset 0, rebases its slot, and leaves the raw address first handed out for it owned by no record |
| Demo.FreeSecond | DaytonsMemoryManager/main.cpp:19 | freeing the second record empties the second block |
| Demo.FreeThird | DaytonsMemoryManager/main.cpp:20 | freeing the third record through its rebased slot empties the first block |

## Left out

- The macros `MEM_NEW`, `MEM_ALLOCATE`, `MEM_DEL`, `MEM_USE` and `MEM_CREATE`, placement `new`, and class-level `operator new`/`delete` are not modelled. They only forward to the modelled operations.
- `malloc`, `free` and the recursive destructors of `ObjectDataBlock` and `MemoryNodeBlock` are not modelled. `Shutdown` is modelled as returning to the state before `Initialize`, not as the dangling pointers the source leaves behind.
- `malloc` failure is not modelled: every allocation of a buffer succeeds.
- The ledger's storage is not modelled. Records live in one sequence with 100-slot chunk counters beside it. The source places each node at `m_NodeCounter * sizeof(MemoryNodeBlock)` inside a buffer of `100 * sizeof(MemoryNode)` bytes, and that byte layout is not modelled.
- `m_BlockCount` is not modelled: it is written but never read.
- `size_t` arithmetic is unbounded. Wrap-around of `m_MemoryIterator + size` for huge requests is not modelled.
- New buffers have unconstrained contents in the model, as `malloc`'s bytes do in the source. No contract says anything about bytes that no record holds.
- Manager.MemoryManager.GetDataReference: the model makes it a precondition that the address is in the current block or the one before it. Otherwise the source does not return a slot. If the current block has a predecessor, the source loops forever on that predecessor. If the current block is the first block, the source reaches `assert(false)` (`DaytonsMemoryManager/MemoryManager.h:300-308`).
- Manager.MemoryManager.Initialize: block positions restart at 0 on every `Initialize`. Addresses handed out before a second `Initialize` can therefore equal addresses handed out after it. `DeallocateMemory` and `GetDataReference` would then act on the new record. In the source the old buffers stay allocated, so such an old pointer matches nothing and `DeallocateMemory` reaches `assert(false)`. The model does not tell chains from different `Initialize` calls apart.
- Manager.MemoryManager.DeallocateMemory: the source `assert(false)`s when no block lists the address. The model makes that a precondition.
- Manager.MemoryManager.DeallocateMemory: what happens to a surviving record's bytes is not in this method's contract. It is stated by Chain.ReleaseKeepsPayloads, which relates the `ReleasedFrom` and `FreedBytes` facts that this method does ensure.
- A raw pointer held by a caller is not rewritten by compaction; only the record's slot is. The model shows this in Demo.FreeFirst, where the old address locates no record after compaction. It does not model dereferencing such a stale pointer.
- The `KB`/`MB`/`GB` macros are modelled only through the demo's constants. `GB` expands to `MB * MB` and is never used.
