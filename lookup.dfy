/**
  Finding the record that owns a raw address, in the order `DeallocateMemory`
  scans: from the head of the chain back through `m_Previous`, and inside each
  block through `m_Objects` in list order.
 */
module Lookup {
  import opened Records

  /** Record `id` exists and its pointer slot holds `p`. */
  predicate Holds(records: seq<MemoryNode>, id: nat, p: Address)
  {
    id < |records| && records[id].address == p
  }

  /** Position in `objs` of the first record whose address is `p`. */
  function FirstMatch(records: seq<MemoryNode>, objs: seq<nat>, p: Address): (r: Option<nat>)
    ensures r.Some? ==> r.value < |objs| && Holds(records, objs[r.value], p)
    ensures r.Some? ==> forall j :: 0 <= j < r.value ==> !Holds(records, objs[j], p)
    ensures r.None? ==> forall j :: 0 <= j < |objs| ==> !Holds(records, objs[j], p)
    decreases |objs|
  {
    if objs == [] then None
    else if Holds(records, objs[0], p) then Some(0)
    else match FirstMatch(records, objs[1..], p)
      case None => None
      case Some(k) => Some(k + 1)
  }

  /** (block, position) of the record a scan of blocks `b - 1` down to `0` stops
      at: the highest block holding a match, and the first match listed there. */
  function Locate(blocks: seq<ObjectDataBlock>, records: seq<MemoryNode>, p: Address, b: nat): (r: Option<(nat, nat)>)
    requires b <= |blocks|
    ensures r.Some? ==> r.value.0 < b && FirstMatch(records, blocks[r.value.0].objects, p) == Some(r.value.1)
    ensures r.Some? ==> forall a :: r.value.0 < a < b ==> FirstMatch(records, blocks[a].objects, p).None?
    ensures r.None? ==> forall a :: 0 <= a < b ==> FirstMatch(records, blocks[a].objects, p).None?
    decreases b
  {
    if b == 0 then None
    else match FirstMatch(records, blocks[b - 1].objects, p)
      case Some(k) => Some((b - 1, k))
      case None => Locate(blocks, records, p, b - 1)
  }

  /** The scan succeeds exactly when some block lists a record whose address is `p`. */
  lemma LocateFindsAny(blocks: seq<ObjectDataBlock>, records: seq<MemoryNode>, p: Address)
    ensures Locate(blocks, records, p, |blocks|).Some? <==>
            exists a, k :: 0 <= a < |blocks| && 0 <= k < |blocks[a].objects| && Holds(records, blocks[a].objects[k], p)
  {
    if Locate(blocks, records, p, |blocks|).Some? {
      var (a, k) := Locate(blocks, records, p, |blocks|).value;
      assert Holds(records, blocks[a].objects[k], p);
    }
  }
}
