/**
  The invariant that ties the block chain to the record ledger, and how bump
  allocation, chain growth and freeing (with and without compaction) keep it.
 */
module Chain {
  import opened Records
  import opened Tiling
  import opened Bytes

  function SpanOf(n: MemoryNode): Span
  {
    Span(n.iteratorBeforeAllocation, n.sizeOfAllocation)
  }

  /** The spans of the records a block lists, in list order. */
  ghost function Spans(records: seq<MemoryNode>, objs: seq<nat>): (sp: seq<Span>)
    ensures |sp| == |objs|
  {
    seq(|objs|, k requires 0 <= k < |objs| => if objs[k] < |records| then SpanOf(records[objs[k]]) else Span(0, 0))
  }

  /** A block's buffer has its declared size and the bump offset stays inside it. */
  ghost predicate BlockValid(blk: ObjectDataBlock)
  {
    blk.memoryBlock.Length == blk.blockSize && blk.memoryIterator <= blk.blockSize
  }

  /** No two blocks share a buffer. */
  ghost predicate BuffersDistinct(blocks: seq<ObjectDataBlock>)
  {
    forall i, j :: 0 <= i < j < |blocks| ==> blocks[i].memoryBlock != blocks[j].memoryBlock
  }

  /** Record `id`, listed by block `b`, points back at `b` and its address is
      that block's base plus the record's offset. */
  ghost predicate Owned(records: seq<MemoryNode>, id: nat, b: nat)
  {
    id < |records| && records[id].block == b && records[id].address == Addr(b, records[id].iteratorBeforeAllocation)
  }

  ghost predicate Distinct(objs: seq<nat>)
  {
    forall i, j :: 0 <= i < j < |objs| ==> objs[i] != objs[j]
  }

  /** The chain invariant. Every listed record is owned by its block, a record
      whose address is not null is listed by the block it names, records never
      overlap, and with compaction on they tile their block from offset 0 up to
      the bump offset. */
  ghost predicate ChainValid(blocks: seq<ObjectDataBlock>, records: seq<MemoryNode>, defrag: bool)
  {
    && BuffersDistinct(blocks)
    && AllBlocksValid(blocks)
    && AllOwned(blocks, records)
    && AllDistinct(blocks)
    && AllListed(blocks, records)
    && AllOrdered(blocks, records)
    && (defrag ==> AllTiled(blocks, records))
  }

  ghost predicate AllBlocksValid(blocks: seq<ObjectDataBlock>)
  {
    forall b :: 0 <= b < |blocks| ==> BlockValid(blocks[b])
  }

  ghost predicate AllOwned(blocks: seq<ObjectDataBlock>, records: seq<MemoryNode>)
  {
    forall b, k :: 0 <= b < |blocks| && 0 <= k < |blocks[b].objects| ==> Owned(records, blocks[b].objects[k], b)
  }

  ghost predicate AllDistinct(blocks: seq<ObjectDataBlock>)
  {
    forall b :: 0 <= b < |blocks| ==> Distinct(blocks[b].objects)
  }

  /** Record `id` is listed by the block it names. */
  ghost predicate Listed(blocks: seq<ObjectDataBlock>, records: seq<MemoryNode>, id: nat)
    requires id < |records|
  {
    records[id].block < |blocks| && id in blocks[records[id].block].objects
  }

  ghost predicate AllListed(blocks: seq<ObjectDataBlock>, records: seq<MemoryNode>)
  {
    forall id {:trigger Listed(blocks, records, id)} :: 0 <= id < |records| && records[id].address != Null ==>
      Listed(blocks, records, id)
  }

  ghost predicate AllOrdered(blocks: seq<ObjectDataBlock>, records: seq<MemoryNode>)
  {
    forall b :: 0 <= b < |blocks| ==> Ordered(Spans(records, blocks[b].objects), blocks[b].memoryIterator)
  }

  ghost predicate AllTiled(blocks: seq<ObjectDataBlock>, records: seq<MemoryNode>)
  {
    forall b :: 0 <= b < |blocks| ==> Tiled(Spans(records, blocks[b].objects), blocks[b].memoryIterator)
  }

  lemma SpansAgree(records: seq<MemoryNode>, records': seq<MemoryNode>, objs: seq<nat>)
    requires forall k :: 0 <= k < |objs| ==>
      objs[k] < |records| && objs[k] < |records'| && SpanOf(records[objs[k]]) == SpanOf(records'[objs[k]])
    ensures Spans(records, objs) == Spans(records', objs)
  {
  }

  /** Where a listed record sits: inside the block, after every record listed
      before it and before every record listed after it. */
  lemma RecordLayout(blocks: seq<ObjectDataBlock>, records: seq<MemoryNode>, defrag: bool, b: nat, k: nat)
    requires ChainValid(blocks, records, defrag) && b < |blocks| && k < |blocks[b].objects|
    ensures var objs := blocks[b].objects; var r := records[objs[k]];
      && r.iteratorBeforeAllocation + r.sizeOfAllocation <= blocks[b].memoryIterator
      && (forall j :: 0 <= j < k ==>
            records[objs[j]].iteratorBeforeAllocation + records[objs[j]].sizeOfAllocation <= r.iteratorBeforeAllocation)
      && (forall j :: k < j < |objs| ==>
            r.iteratorBeforeAllocation + r.sizeOfAllocation <= records[objs[j]].iteratorBeforeAllocation &&
            records[objs[j]].iteratorBeforeAllocation + records[objs[j]].sizeOfAllocation <= blocks[b].memoryIterator)
  {
    var objs := blocks[b].objects;
    var sp := Spans(records, objs);
    assert Owned(records, objs[k], b);
    OrderedEnd(sp, blocks[b].memoryIterator, k);
    forall j | 0 <= j < k
      ensures records[objs[j]].iteratorBeforeAllocation + records[objs[j]].sizeOfAllocation
           <= records[objs[k]].iteratorBeforeAllocation
    {
      assert Owned(records, objs[j], b);
      OrderedBefore(sp, blocks[b].memoryIterator, j, k);
    }
    forall j | k < j < |objs|
      ensures records[objs[k]].iteratorBeforeAllocation + records[objs[k]].sizeOfAllocation
           <= records[objs[j]].iteratorBeforeAllocation
      ensures records[objs[j]].iteratorBeforeAllocation + records[objs[j]].sizeOfAllocation
           <= blocks[b].memoryIterator
    {
      assert Owned(records, objs[j], b);
      OrderedBefore(sp, blocks[b].memoryIterator, k, j);
      OrderedEnd(sp, blocks[b].memoryIterator, j);
    }
  }

  /** What compaction relies on when record `k` of block `a` is freed: the
      freed record and everything listed after it lie inside the used part of
      the buffer, the later ones above the freed record, and no id is listed twice. */
  ghost predicate Compactable(blocks: seq<ObjectDataBlock>, records: seq<MemoryNode>, a: nat, k: nat)
  {
    && a < |blocks| && k < |blocks[a].objects|
    && var objs := blocks[a].objects;
    && objs[k] < |records|
    && var r := records[objs[k]];
    && r.iteratorBeforeAllocation + r.sizeOfAllocation <= blocks[a].memoryIterator <= blocks[a].memoryBlock.Length
    && Distinct(objs)
    && forall j :: k < j < |objs| ==>
         objs[j] < |records| && r.iteratorBeforeAllocation + r.sizeOfAllocation <= records[objs[j]].iteratorBeforeAllocation
  }

  lemma ChainCompactable(blocks: seq<ObjectDataBlock>, records: seq<MemoryNode>, defrag: bool, a: nat, k: nat)
    requires ChainValid(blocks, records, defrag) && a < |blocks| && k < |blocks[a].objects|
    ensures Compactable(blocks, records, a, k)
  {
    var objs := blocks[a].objects;
    assert Owned(records, objs[k], a);
    RecordLayout(blocks, records, defrag, a, k);
    assert BlockValid(blocks[a]);
    assert Distinct(objs);
    forall j | k < j < |objs| ensures objs[j] < |records| {
      assert Owned(records, objs[j], a);
    }
  }

  /** A record whose address is not null lies inside its block's buffer. */
  lemma LiveInBounds(blocks: seq<ObjectDataBlock>, records: seq<MemoryNode>, defrag: bool, id: nat)
    requires ChainValid(blocks, records, defrag) && id < |records| && records[id].address != Null
    ensures records[id].block < |blocks|
    ensures records[id].iteratorBeforeAllocation + records[id].sizeOfAllocation
         <= blocks[records[id].block].memoryIterator <= blocks[records[id].block].memoryBlock.Length
  {
    assert Listed(blocks, records, id);
    var b := records[id].block;
    var objs := blocks[b].objects;
    var k :| 0 <= k < |objs| && objs[k] == id;
    RecordLayout(blocks, records, defrag, b, k);
    assert BlockValid(blocks[b]);
  }

  // ---- bump allocation -------------------------------------------------------

  /** The record described by a bump allocation of `size` bytes in block `b`. */
  function PlacedNode(blocks: seq<ObjectDataBlock>, b: nat, size: nat): MemoryNode
    requires b < |blocks|
  {
    var it := blocks[b].memoryIterator;
    MemoryNode(Addr(b, it), b, size, it)
  }

  /** The chain after record `id` is bump-allocated in block `b`. */
  function PlacedBlocks(blocks: seq<ObjectDataBlock>, b: nat, size: nat, id: nat): seq<ObjectDataBlock>
    requires b < |blocks|
  {
    blocks[b := blocks[b].(memoryIterator := blocks[b].memoryIterator + size, objects := blocks[b].objects + [id])]
  }

  /** After a bump allocation every listed record is still owned by its block,
      the new one included, and no block lists an id twice. */
  lemma PlaceKeepsOwnership(blocks: seq<ObjectDataBlock>, records: seq<MemoryNode>, defrag: bool, b: nat, size: nat)
    requires ChainValid(blocks, records, defrag) && b < |blocks|
    ensures AllOwned(PlacedBlocks(blocks, b, size, |records|), records + [PlacedNode(blocks, b, size)])
    ensures AllDistinct(PlacedBlocks(blocks, b, size, |records|))
  {
    var id := |records|;
    var blocks' := PlacedBlocks(blocks, b, size, id);
    var records' := records + [PlacedNode(blocks, b, size)];
    assert Owned(records', id, b);
    forall x, k | 0 <= x < |blocks'| && 0 <= k < |blocks'[x].objects|
      ensures Owned(records', blocks'[x].objects[k], x)
    {
      if x != b || k < |blocks[b].objects| {
        assert blocks'[x].objects[k] == blocks[x].objects[k];
        assert Owned(records, blocks[x].objects[k], x);
      }
    }
    forall x | 0 <= x < |blocks'| ensures Distinct(blocks'[x].objects) {
      if x == b {
        assert Distinct(blocks[b].objects);
        forall j | 0 <= j < |blocks[b].objects| ensures blocks[b].objects[j] != id {
          assert Owned(records, blocks[b].objects[j], b);
        }
      } else {
        assert Distinct(blocks[x].objects);
      }
    }
  }

  /** After a bump allocation every block's records are still ordered (and tiled
      when compaction is on), the new record sitting at the old bump offset. */
  lemma PlaceKeepsLayout(blocks: seq<ObjectDataBlock>, records: seq<MemoryNode>, defrag: bool, b: nat, size: nat)
    requires ChainValid(blocks, records, defrag) && b < |blocks|
    ensures AllOrdered(PlacedBlocks(blocks, b, size, |records|), records + [PlacedNode(blocks, b, size)])
    ensures defrag ==> AllTiled(PlacedBlocks(blocks, b, size, |records|), records + [PlacedNode(blocks, b, size)])
  {
    var id := |records|;
    var blocks' := PlacedBlocks(blocks, b, size, id);
    var records' := records + [PlacedNode(blocks, b, size)];
    forall x | 0 <= x < |blocks'|
      ensures Ordered(Spans(records', blocks'[x].objects), blocks'[x].memoryIterator)
      ensures defrag ==> Tiled(Spans(records', blocks'[x].objects), blocks'[x].memoryIterator)
    {
      var objs := blocks[x].objects;
      forall k | 0 <= k < |objs| ensures objs[k] < |records| {
        assert Owned(records, objs[k], x);
      }
      SpansAgree(records, records', objs);
      assert Ordered(Spans(records, objs), blocks[x].memoryIterator);
      assert defrag ==> Tiled(Spans(records, objs), blocks[x].memoryIterator);
      if x == b {
        assert Spans(records', objs + [id]) == Spans(records', objs) + [Span(blocks[b].memoryIterator, size)];
        AppendOrdered(Spans(records, objs), blocks[b].memoryIterator, size);
        if defrag {
          AppendTiled(Spans(records, objs), blocks[b].memoryIterator, size);
        }
      } else {
        assert blocks'[x] == blocks[x];
      }
    }
  }

  /** Bump-allocating in a block with room keeps the chain invariant. */
  lemma PlaceKeepsChain(blocks: seq<ObjectDataBlock>, records: seq<MemoryNode>, defrag: bool, b: nat, size: nat)
    requires ChainValid(blocks, records, defrag) && b < |blocks| && Fits(blocks[b], size)
    ensures ChainValid(PlacedBlocks(blocks, b, size, |records|), records + [PlacedNode(blocks, b, size)], defrag)
  {
    var id := |records|;
    var blocks' := PlacedBlocks(blocks, b, size, id);
    var records' := records + [PlacedNode(blocks, b, size)];
    PlaceKeepsOwnership(blocks, records, defrag, b, size);
    PlaceKeepsLayout(blocks, records, defrag, b, size);
    forall i | 0 <= i < |records'| && records'[i].address != Null
      ensures Listed(blocks', records', i)
    {
      if i < id {
        assert records'[i] == records[i];
        assert Listed(blocks, records, i);
      }
    }
    forall x | 0 <= x < |blocks'| ensures BlockValid(blocks'[x]) {
      assert BlockValid(blocks[x]);
    }
    assert BuffersDistinct(blocks') by {
      forall i, j | 0 <= i < j < |blocks'| ensures blocks'[i].memoryBlock != blocks'[j].memoryBlock {
        assert blocks'[i].memoryBlock == blocks[i].memoryBlock;
        assert blocks'[j].memoryBlock == blocks[j].memoryBlock;
      }
    }
  }

  /** Linking a new, empty block after the head keeps the chain invariant. */
  lemma GrowKeepsChain(blocks: seq<ObjectDataBlock>, records: seq<MemoryNode>, defrag: bool, added: ObjectDataBlock)
    requires ChainValid(blocks, records, defrag)
    requires BlockValid(added) && added.memoryIterator == 0 && added.objects == []
    requires forall i :: 0 <= i < |blocks| ==> blocks[i].memoryBlock != added.memoryBlock
    ensures ChainValid(blocks + [added], records, defrag)
  {
    var blocks' := blocks + [added];
    forall x | 0 <= x < |blocks|
      ensures blocks'[x] == blocks[x]
    {
    }
    assert Spans(records, added.objects) == [];
    forall i | 0 <= i < |records| && records[i].address != Null
      ensures Listed(blocks', records, i)
    {
      assert Listed(blocks, records, i);
    }
  }

  // ---- freeing ---------------------------------------------------------------

  /** `n'` is record `n` rebased by compaction: moved down by `s` bytes inside
      block `b`, with its address following its new offset. */
  ghost predicate RebasedFrom(n': MemoryNode, n: MemoryNode, b: nat, s: nat)
  {
    n' == n.(iteratorBeforeAllocation := n'.iteratorBeforeAllocation, address := Addr(b, n'.iteratorBeforeAllocation)) &&
    n'.iteratorBeforeAllocation + s == n.iteratorBeforeAllocation
  }

  /** The ledger after record `objs[k]` of block `b` is freed with compaction: the
      freed record's address is null, every record listed after it whose offset is
      above the freed offset is rebased by the freed size, and nothing else changes. */
  ghost predicate CompactedLedger(records: seq<MemoryNode>, records': seq<MemoryNode>, objs: seq<nat>, k: nat, b: nat)
    requires k < |objs| && objs[k] < |records|
  {
    var id := objs[k];
    var r := records[id];
    && |records'| == |records|
    && records'[id] == r.(address := Null)
    && forall j :: 0 <= j < |records| && j != id ==>
         if j in objs[k + 1..] && records[j].iteratorBeforeAllocation > r.iteratorBeforeAllocation
         then RebasedFrom(records'[j], records[j], b, r.sizeOfAllocation)
         else records'[j] == records[j]
  }

  /** The chain and ledger after record `k` of block `a` is freed: the block stops
      listing it; with compaction the bump offset drops by its size and the
      ledger is compacted, without compaction only its address is nulled. */
  ghost predicate ReleasedFrom(blocks: seq<ObjectDataBlock>, records: seq<MemoryNode>,
                               blocks': seq<ObjectDataBlock>, records': seq<MemoryNode>,
                               defrag: bool, a: nat, k: nat)
    requires a < |blocks| && k < |blocks[a].objects|
  {
    var objs := blocks[a].objects;
    var id := objs[k];
    && id < |records|
    && |blocks'| == |blocks|
    && (forall i :: 0 <= i < |blocks| && i != a ==> blocks'[i] == blocks[i])
    && blocks'[a].memoryBlock == blocks[a].memoryBlock
    && blocks'[a].blockSize == blocks[a].blockSize
    && blocks'[a].objects == objs[..k] + objs[k + 1..]
    && if defrag then
         && blocks'[a].memoryIterator + records[id].sizeOfAllocation == blocks[a].memoryIterator
         && CompactedLedger(records, records', objs, k, a)
       else
         && blocks'[a].memoryIterator == blocks[a].memoryIterator
         && records' == records[id := records[id].(address := Null)]
  }

  /** How freeing treats each record: records of other blocks and records listed
      before the freed one are untouched; records listed after it keep their
      block and size, stay owned, and (with compaction) move down by the freed size. */
  lemma ReleasedRecords(blocks: seq<ObjectDataBlock>, records: seq<MemoryNode>,
                        blocks': seq<ObjectDataBlock>, records': seq<MemoryNode>,
                        defrag: bool, a: nat, k: nat)
    requires ChainValid(blocks, records, defrag) && a < |blocks| && k < |blocks[a].objects|
    requires ReleasedFrom(blocks, records, blocks', records', defrag, a, k)
    ensures var objs := blocks[a].objects; var r := records[objs[k]];
      && |records'| == |records|
      && records'[objs[k]] == r.(address := Null)
      && (forall j :: 0 <= j < |records| ==> records'[j].block == records[j].block)
      && (forall j :: 0 <= j < |records| && records[j].block != a ==> records'[j] == records[j])
      && (forall j :: 0 <= j < k ==> records'[objs[j]] == records[objs[j]])
      && (forall j :: k < j < |objs| ==>
            && Owned(records', objs[j], a)
            && records'[objs[j]].sizeOfAllocation == records[objs[j]].sizeOfAllocation
            && records'[objs[j]].iteratorBeforeAllocation + (if defrag then r.sizeOfAllocation else 0)
               == records[objs[j]].iteratorBeforeAllocation)
  {
    var objs := blocks[a].objects;
    var id := objs[k];
    var r := records[id];
    assert Owned(records, id, a);
    RecordLayout(blocks, records, defrag, a, k);
    assert Distinct(objs);
    assert forall j :: 0 <= j < |records| && records[j].block != a ==> records'[j] == records[j];
    forall j | 0 <= j < k ensures records'[objs[j]] == records[objs[j]] {
      assert objs[j] !in objs[k + 1..];
    }
    forall j | k < j < |objs|
      ensures Owned(records', objs[j], a)
      ensures records'[objs[j]].sizeOfAllocation == records[objs[j]].sizeOfAllocation
      ensures records'[objs[j]].iteratorBeforeAllocation + (if defrag then r.sizeOfAllocation else 0)
           == records[objs[j]].iteratorBeforeAllocation
    {
      assert Owned(records, objs[j], a);
      if defrag {
        assert objs[j] == objs[k + 1..][j - k - 1];
      }
    }
  }

  /** What stays of a block's list when entry `k` is erased. */
  lemma ErasedEntries(objs: seq<nat>, k: nat, j: nat)
    requires k < |objs| && j < |objs| - 1
    ensures (objs[..k] + objs[k + 1..])[j] == if j < k then objs[j] else objs[j + 1]
  {
  }

  /** Every entry still listed after a free is owned by its block. */
  lemma ReleaseKeepsOwned(blocks: seq<ObjectDataBlock>, records: seq<MemoryNode>,
                          blocks': seq<ObjectDataBlock>, records': seq<MemoryNode>,
                          defrag: bool, a: nat, k: nat)
    requires ChainValid(blocks, records, defrag) && a < |blocks| && k < |blocks[a].objects|
    requires ReleasedFrom(blocks, records, blocks', records', defrag, a, k)
    ensures AllOwned(blocks', records')
  {
    var objs := blocks[a].objects;
    ReleasedRecords(blocks, records, blocks', records', defrag, a, k);
    forall x, i | 0 <= x < |blocks'| && 0 <= i < |blocks'[x].objects|
      ensures Owned(records', blocks'[x].objects[i], x)
    {
      if x == a {
        ErasedEntries(objs, k, i);
        if i < k {
          assert Owned(records, objs[i], a);
        }
      } else {
        assert Owned(records, blocks[x].objects[i], x);
      }
    }
  }

  /** Erasing an entry keeps a block's list free of repeats. */
  lemma ReleaseKeepsDistinct(blocks: seq<ObjectDataBlock>, blocks': seq<ObjectDataBlock>, a: nat, k: nat)
    requires AllDistinct(blocks) && a < |blocks| && k < |blocks[a].objects|
    requires |blocks'| == |blocks| && (forall i :: 0 <= i < |blocks| && i != a ==> blocks'[i] == blocks[i])
    requires blocks'[a].objects == blocks[a].objects[..k] + blocks[a].objects[k + 1..]
    ensures AllDistinct(blocks')
  {
    var objs := blocks[a].objects;
    var objs' := blocks'[a].objects;
    assert Distinct(objs);
    forall i, j | 0 <= i < j < |objs'| ensures objs'[i] != objs'[j] {
      ErasedEntries(objs, k, i);
      ErasedEntries(objs, k, j);
    }
    assert Distinct(objs');
    assert forall x :: 0 <= x < |blocks'| && x != a ==> Distinct(blocks'[x].objects) by {
      forall x | 0 <= x < |blocks'| && x != a ensures Distinct(blocks'[x].objects) {
        assert blocks'[x] == blocks[x];
        assert Distinct(blocks[x].objects);
      }
    }
  }

  /** A record whose address is still not null after a free is still listed by its block. */
  lemma ReleaseKeepsListed(blocks: seq<ObjectDataBlock>, records: seq<MemoryNode>,
                           blocks': seq<ObjectDataBlock>, records': seq<MemoryNode>,
                           defrag: bool, a: nat, k: nat)
    requires ChainValid(blocks, records, defrag) && a < |blocks| && k < |blocks[a].objects|
    requires ReleasedFrom(blocks, records, blocks', records', defrag, a, k)
    ensures AllListed(blocks', records')
  {
    var objs := blocks[a].objects;
    var objs' := blocks'[a].objects;
    var id := objs[k];
    ReleasedRecords(blocks, records, blocks', records', defrag, a, k);
    assert Distinct(objs);
    forall i | 0 <= i < |records'| && records'[i].address != Null
      ensures Listed(blocks', records', i)
    {
      assert i != id;
      assert Listed(blocks, records, i);
      var x := records[i].block;
      if x != a {
        assert records'[i] == records[i];
        assert blocks'[x] == blocks[x];
      } else if i in objs[k + 1..] {
        var m :| k + 1 <= m < |objs| && objs[m] == i;
        ErasedEntries(objs, k, m - 1);
        assert objs'[m - 1] == i;
        assert Owned(records', i, a);
      } else {
        assert records'[i] == records[i];
        assert i in blocks[x].objects;
        var m :| 0 <= m < |objs| && objs[m] == i;
        assert m < k;
        ErasedEntries(objs, k, m);
        assert objs'[m] == i;
      }
    }
  }

  /** The freed block's layout is the compacted (or erased) layout of the old one. */
  lemma ReleasedSpans(blocks: seq<ObjectDataBlock>, records: seq<MemoryNode>,
                      blocks': seq<ObjectDataBlock>, records': seq<MemoryNode>,
                      defrag: bool, a: nat, k: nat)
    requires ChainValid(blocks, records, defrag) && a < |blocks| && k < |blocks[a].objects|
    requires ReleasedFrom(blocks, records, blocks', records', defrag, a, k)
    ensures var sp := Spans(records, blocks[a].objects);
      Spans(records', blocks'[a].objects) == if defrag then Compacted(sp, k) else Removed(sp, k)
  {
    var objs := blocks[a].objects;
    var objs' := blocks'[a].objects;
    var r := records[objs[k]];
    ReleasedRecords(blocks, records, blocks', records', defrag, a, k);
    RecordLayout(blocks, records, defrag, a, k);
    var sp := Spans(records, objs);
    var sp' := Spans(records', objs');
    var want := if defrag then Compacted(sp, k) else Removed(sp, k);
    forall i | 0 <= i < |sp'| ensures sp'[i] == want[i] {
      ErasedEntries(objs, k, i);
      if i >= k {
        assert Owned(records, objs[i + 1], a);
      } else {
        assert Owned(records, objs[i], a);
      }
    }
  }

  /** The other blocks' layouts are untouched by a free. */
  lemma ReleaseKeepsOtherSpans(blocks: seq<ObjectDataBlock>, records: seq<MemoryNode>,
                               blocks': seq<ObjectDataBlock>, records': seq<MemoryNode>,
                               defrag: bool, a: nat, k: nat, x: nat)
    requires ChainValid(blocks, records, defrag) && a < |blocks| && k < |blocks[a].objects|
    requires ReleasedFrom(blocks, records, blocks', records', defrag, a, k)
    requires x < |blocks| && x != a
    ensures Spans(records', blocks'[x].objects) == Spans(records, blocks[x].objects)
  {
    ReleasedRecords(blocks, records, blocks', records', defrag, a, k);
    assert blocks'[x] == blocks[x];
    forall i | 0 <= i < |blocks[x].objects|
      ensures blocks[x].objects[i] < |records|
      ensures records'[blocks[x].objects[i]] == records[blocks[x].objects[i]]
    {
      assert Owned(records, blocks[x].objects[i], x);
    }
    SpansAgree(records, records', blocks[x].objects);
  }

  /** Freeing a record keeps the chain invariant, with or without compaction. */
  lemma ReleaseKeepsChain(blocks: seq<ObjectDataBlock>, records: seq<MemoryNode>,
                          blocks': seq<ObjectDataBlock>, records': seq<MemoryNode>,
                          defrag: bool, a: nat, k: nat)
    requires ChainValid(blocks, records, defrag) && a < |blocks| && k < |blocks[a].objects|
    requires ReleasedFrom(blocks, records, blocks', records', defrag, a, k)
    ensures ChainValid(blocks', records', defrag)
  {
    ReleaseKeepsOwned(blocks, records, blocks', records', defrag, a, k);
    ReleaseKeepsDistinct(blocks, blocks', a, k);
    ReleaseKeepsListed(blocks, records, blocks', records', defrag, a, k);
    ReleasedSpans(blocks, records, blocks', records', defrag, a, k);
    RecordLayout(blocks, records, defrag, a, k);
    var sp := Spans(records, blocks[a].objects);
    var it' := blocks'[a].memoryIterator;
    assert BlockValid(blocks'[a]) by {
      assert BlockValid(blocks[a]);
    }
    forall x | 0 <= x < |blocks'|
      ensures BlockValid(blocks'[x])
      ensures Ordered(Spans(records', blocks'[x].objects), blocks'[x].memoryIterator)
      ensures defrag ==> Tiled(Spans(records', blocks'[x].objects), blocks'[x].memoryIterator)
    {
      if x == a {
        if defrag {
          CompactTiled(sp, blocks[a].memoryIterator, k);
          TiledIsOrdered(Compacted(sp, k), it');
        } else {
          RemoveOrdered(sp, blocks[a].memoryIterator, k);
        }
      } else {
        ReleaseKeepsOtherSpans(blocks, records, blocks', records', defrag, a, k, x);
        assert blocks'[x] == blocks[x];
        assert BlockValid(blocks[x]);
        assert Ordered(Spans(records, blocks[x].objects), blocks[x].memoryIterator);
      }
    }
    assert BuffersDistinct(blocks') by {
      forall i, j | 0 <= i < j < |blocks'| ensures blocks'[i].memoryBlock != blocks'[j].memoryBlock {
        assert blocks'[i].memoryBlock == blocks[i].memoryBlock;
        assert blocks'[j].memoryBlock == blocks[j].memoryBlock;
      }
    }
  }

  // ---- payload bytes ---------------------------------------------------------

  /** The bytes a record's address currently designates in `bytes`, its block's buffer. */
  function PayloadOf(bytes: seq<bv8>, n: MemoryNode): seq<bv8>
  {
    if n.iteratorBeforeAllocation + n.sizeOfAllocation <= |bytes|
    then bytes[n.iteratorBeforeAllocation..n.iteratorBeforeAllocation + n.sizeOfAllocation]
    else []
  }

  /** Compaction moves every surviving record's bytes together with its address:
      after the memmove, each record listed by the block still designates the
      same bytes it designated before the free. */
  lemma CompactionKeepsPayload(blocks: seq<ObjectDataBlock>, records: seq<MemoryNode>,
                               blocks': seq<ObjectDataBlock>, records': seq<MemoryNode>,
                               a: nat, k: nat, bytes: seq<bv8>, j: nat)
    requires ChainValid(blocks, records, true) && a < |blocks| && k < |blocks[a].objects|
    requires ReleasedFrom(blocks, records, blocks', records', true, a, k)
    requires |bytes| == blocks[a].memoryBlock.Length
    requires j < |blocks[a].objects| && j != k
    ensures var r := records[blocks[a].objects[k]];
      var o, s, it := r.iteratorBeforeAllocation, r.sizeOfAllocation, blocks[a].memoryIterator;
      o + s <= it &&
      PayloadOf(Moved(bytes, o, o + s, it - (o + s)), records'[blocks[a].objects[j]])
        == PayloadOf(bytes, records[blocks[a].objects[j]])
  {
    var objs := blocks[a].objects;
    var r := records[objs[k]];
    var o, s, it := r.iteratorBeforeAllocation, r.sizeOfAllocation, blocks[a].memoryIterator;
    RecordLayout(blocks, records, true, a, k);
    ReleasedRecords(blocks, records, blocks', records', true, a, k);
    assert BlockValid(blocks[a]);
    PayloadMoves(bytes, o, s, it, records[objs[j]], records'[objs[j]], j > k);
  }

  /** The memmove of compaction seen from one record: one wholly below the freed
      range keeps its bytes, one wholly above it finds them `s` bytes lower. */
  lemma PayloadMoves(bytes: seq<bv8>, o: nat, s: nat, it: nat, n: MemoryNode, n': MemoryNode, above: bool)
    requires o + s <= it <= |bytes|
    requires !above ==> n' == n && n.iteratorBeforeAllocation + n.sizeOfAllocation <= o
    requires above ==> o + s <= n.iteratorBeforeAllocation && n.iteratorBeforeAllocation + n.sizeOfAllocation <= it
    requires above ==> n'.sizeOfAllocation == n.sizeOfAllocation && n'.iteratorBeforeAllocation + s == n.iteratorBeforeAllocation
    ensures PayloadOf(Moved(bytes, o, o + s, it - (o + s)), n') == PayloadOf(bytes, n)
  {
    var lo, hi := n.iteratorBeforeAllocation, n.iteratorBeforeAllocation + n.sizeOfAllocation;
    if above {
      MovedWindow(bytes, o, o + s, it - (o + s), lo, hi);
    } else {
      MovedBelow(bytes, o, o + s, it - (o + s), lo, hi);
    }
  }

  /** A block's bytes after a free: with compaction the bytes above the freed
      record slide down over it, without compaction nothing moves. */
  ghost predicate FreedBytes(bytes': seq<bv8>, bytes: seq<bv8>, defrag: bool, o: nat, s: nat, it: nat)
  {
    if defrag then o + s <= it <= |bytes| && bytes' == Moved(bytes, o, o + s, it - (o + s))
    else bytes' == bytes
  }

  /** A record of the freed block whose address is still not null after the free
      designates the same bytes as before it, with or without compaction. */
  lemma ReleaseKeepsPayload(blocks: seq<ObjectDataBlock>, records: seq<MemoryNode>,
                            blocks': seq<ObjectDataBlock>, records': seq<MemoryNode>,
                            defrag: bool, a: nat, k: nat, bytes: seq<bv8>, bytes': seq<bv8>, id: nat)
    requires ChainValid(blocks, records, defrag) && a < |blocks| && k < |blocks[a].objects|
    requires ReleasedFrom(blocks, records, blocks', records', defrag, a, k)
    requires |bytes| == blocks[a].memoryBlock.Length
    requires var r := records[blocks[a].objects[k]];
      FreedBytes(bytes', bytes, defrag, r.iteratorBeforeAllocation, r.sizeOfAllocation, blocks[a].memoryIterator)
    requires id < |records'| && records'[id].address != Null && records'[id].block == a
    ensures PayloadOf(bytes', records'[id]) == PayloadOf(bytes, records[id])
  {
    var objs := blocks[a].objects;
    ReleaseKeepsListed(blocks, records, blocks', records', defrag, a, k);
    assert Listed(blocks', records', id);
    var i :| 0 <= i < |objs| - 1 && (objs[..k] + objs[k + 1..])[i] == id;
    ErasedEntries(objs, k, i);
    var j := if i < k then i else i + 1;
    assert objs[j] == id;
    if defrag {
      CompactionKeepsPayload(blocks, records, blocks', records', a, k, bytes, j);
    } else {
      assert Distinct(objs);
    }
  }

  /** After a free, every record whose address is not null designates the same
      bytes as before: those of the freed block through the block's new bytes,
      all others because neither they nor their blocks changed. */
  lemma ReleaseKeepsPayloads(blocks: seq<ObjectDataBlock>, records: seq<MemoryNode>,
                             blocks': seq<ObjectDataBlock>, records': seq<MemoryNode>,
                             defrag: bool, a: nat, k: nat, bytes: seq<bv8>, bytes': seq<bv8>)
    requires ChainValid(blocks, records, defrag) && a < |blocks| && k < |blocks[a].objects|
    requires ReleasedFrom(blocks, records, blocks', records', defrag, a, k)
    requires |bytes| == blocks[a].memoryBlock.Length
    requires var r := records[blocks[a].objects[k]];
      FreedBytes(bytes', bytes, defrag, r.iteratorBeforeAllocation, r.sizeOfAllocation, blocks[a].memoryIterator)
    ensures |records'| == |records|
    ensures forall id :: 0 <= id < |records'| && records'[id].address != Null && records'[id].block == a ==>
      PayloadOf(bytes', records'[id]) == PayloadOf(bytes, records[id])
    ensures forall id :: 0 <= id < |records'| && records'[id].block != a ==> records'[id] == records[id]
  {
    ReleasedRecords(blocks, records, blocks', records', defrag, a, k);
    forall id | 0 <= id < |records'| && records'[id].address != Null && records'[id].block == a
      ensures PayloadOf(bytes', records'[id]) == PayloadOf(bytes, records[id])
    {
      ReleaseKeepsPayload(blocks, records, blocks', records', defrag, a, k, bytes, bytes', id);
    }
    assert forall id :: 0 <= id < |records'| && records'[id].block != a ==> records'[id] == records[id];
  }
}
