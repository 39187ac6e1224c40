/**
  Choosing the data block an allocation goes to: the fit tests, the recursive
  neighbour search `CheckForAvailableBlockSpace`, and a reference description of
  the order in which that search actually visits the chain.
 */
module Search {
  import opened Records

  /** The recursive neighbour search. `block` is a position in the chain or null;
      the predecessor of block `b` is `b - 1` and its successor `b + 1`. */
  function CheckForAvailableBlockSpace(blocks: seq<ObjectDataBlock>, block: Option<nat>, size: nat,
                                       checkPrev: bool, checkNext: bool): (r: Option<nat>)
    requires block.Some? ==> block.value < |blocks|
    ensures block.None? ==> r.None?
    ensures r.Some? ==> r.value < |blocks| && StrictlyFits(blocks[r.value], size)
    decreases if block.Some? then block.value + 1 else 0
  {
    if block.None? then None
    else
      var b := block.value;
      var prev := if b > 0 then Some(b - 1) else None;
      var next := if b + 1 < |blocks| then Some(b + 1) else None;
      if prev.Some? && checkPrev && StrictlyFits(blocks[prev.value], size) then prev
      else if next.Some? && checkNext && StrictlyFits(blocks[next.value], size) then next
      else
        var previousRecursiveCheck := CheckForAvailableBlockSpace(blocks, prev, size, true, false);
        if previousRecursiveCheck.Some? then previousRecursiveCheck
        else
          // The "nodes after next" call is made on `prev` again, and the source then
          // re-tests `previousRecursiveCheck` (known to be null here) instead of this
          // result, so the function answers null whatever this call finds.
          var nextRecursiveCheck := CheckForAvailableBlockSpace(blocks, prev, size, false, true);
          None
  }

  predicate FitsAt(blocks: seq<ObjectDataBlock>, b: nat, size: nat)
  {
    b < |blocks| && StrictlyFits(blocks[b], size)
  }

  /** The positions below `i`, nearest first: i-1, i-2, ..., 0. */
  function Below(i: nat): (r: seq<nat>)
    ensures |r| == i
    ensures forall j :: 0 <= j < i ==> r[j] == i - 1 - j
  {
    if i == 0 then [] else [i - 1] + Below(i - 1)
  }

  /** The order in which the search started at block `c` of a chain of `n` blocks
      looks at blocks: the predecessor, the successor, then the predecessors of
      the predecessor nearest first. */
  function SearchOrder(n: nat, c: nat): seq<nat>
  {
    (if c > 0 then [c - 1] else []) + (if c + 1 < n then [c + 1] else []) + (if c > 0 then Below(c - 1) else [])
  }

  /** Position in `order` of the first block that strictly fits. */
  function FirstStrictFit(blocks: seq<ObjectDataBlock>, order: seq<nat>, size: nat): (r: Option<nat>)
    ensures r.Some? ==> r.value < |order| && FitsAt(blocks, order[r.value], size)
    ensures r.Some? ==> forall j :: 0 <= j < r.value ==> !FitsAt(blocks, order[j], size)
    ensures r.None? ==> forall j :: 0 <= j < |order| ==> !FitsAt(blocks, order[j], size)
    decreases |order|
  {
    if order == [] then None
    else if FitsAt(blocks, order[0], size) then Some(0)
    else match FirstStrictFit(blocks, order[1..], size)
      case None => None
      case Some(j) => Some(j + 1)
  }

  /** The block that the first strictly fitting position in `order` names. */
  function FirstFitBlock(blocks: seq<ObjectDataBlock>, order: seq<nat>, size: nat): Option<nat>
  {
    match FirstStrictFit(blocks, order, size)
    case None => None
    case Some(j) => Some(order[j])
  }

  lemma {:induction false} FirstFitBlockCons(blocks: seq<ObjectDataBlock>, x: nat, rest: seq<nat>, size: nat)
    ensures FirstFitBlock(blocks, [x] + rest, size)
         == if FitsAt(blocks, x, size) then Some(x) else FirstFitBlock(blocks, rest, size)
  {
    assert ([x] + rest)[0] == x;
    assert ([x] + rest)[1..] == rest;
  }

  /** Searching only backwards from block `b` visits b-1, b-2, ..., 0 in turn. */
  lemma {:induction false} PredecessorSearch(blocks: seq<ObjectDataBlock>, b: nat, size: nat)
    requires b < |blocks|
    ensures CheckForAvailableBlockSpace(blocks, Some(b), size, true, false) == FirstFitBlock(blocks, Below(b), size)
  {
    if b > 0 {
      PredecessorSearch(blocks, b - 1, size);
      FirstFitBlockCons(blocks, b - 1, Below(b - 1), size);
    } else {
      assert Below(0) == [];
    }
  }

  /** One step of the search from block `c`: its immediate neighbours, then the
      backward search from the predecessor. */
  lemma SearchStep(blocks: seq<ObjectDataBlock>, c: nat, size: nat)
    requires c < |blocks|
    ensures CheckForAvailableBlockSpace(blocks, Some(c), size, true, true)
         == if c > 0 && FitsAt(blocks, c - 1, size) then Some(c - 1)
            else if c + 1 < |blocks| && FitsAt(blocks, c + 1, size) then Some(c + 1)
            else if c > 0 then FirstFitBlock(blocks, Below(c - 1), size)
            else None
  {
    if c > 0 {
      PredecessorSearch(blocks, c - 1, size);
    }
  }

  /** The whole search from block `c` returns the first block, in `SearchOrder`,
      that strictly fits: the successor is the only block above `c` it looks at,
      and the discarded second recursive call has no effect. */
  lemma SearchVisitsInOrder(blocks: seq<ObjectDataBlock>, c: nat, size: nat)
    requires c < |blocks|
    ensures CheckForAvailableBlockSpace(blocks, Some(c), size, true, true)
         == FirstFitBlock(blocks, SearchOrder(|blocks|, c), size)
  {
    var n := |blocks|;
    var tail := if c > 0 then Below(c - 1) else [];
    SearchStep(blocks, c, size);
    assert c == 0 ==> FirstFitBlock(blocks, tail, size) == None;
    var succ := if c + 1 < n then [c + 1] else [];
    var pred := if c > 0 then [c - 1] else [];
    assert SearchOrder(n, c) == pred + (succ + tail);
    if c + 1 < n {
      FirstFitBlockCons(blocks, c + 1, tail, size);
      assert succ + tail == [c + 1] + tail;
    } else {
      assert succ + tail == tail;
    }
    if c > 0 {
      FirstFitBlockCons(blocks, c - 1, succ + tail, size);
      assert pred + (succ + tail) == [c - 1] + (succ + tail);
    } else {
      assert pred + (succ + tail) == succ + tail;
    }
  }

  /** The blocks the search looks at are exactly those below `c` and the one right after it. */
  lemma SearchOrderCovers(n: nat, c: nat, x: nat)
    requires c < n
    ensures x in SearchOrder(n, c) <==> x < c || (x == c + 1 && x < n)
  {
    var tail := if c > 0 then Below(c - 1) else [];
    if c > 1 && x < c - 1 {
      assert tail[c - 2 - x] == x;
    }
  }

  /** What the search returns is a strict fit among the blocks it covers, and it
      answers null exactly when none of those blocks strictly fits. */
  lemma SearchResult(blocks: seq<ObjectDataBlock>, c: nat, size: nat)
    requires c < |blocks|
    ensures var r := CheckForAvailableBlockSpace(blocks, Some(c), size, true, true);
      && (r.Some? ==> (r.value < c || r.value == c + 1) && StrictlyFits(blocks[r.value], size))
      && (r.None? <==> forall x :: 0 <= x < |blocks| && (x < c || x == c + 1) ==> !StrictlyFits(blocks[x], size))
  {
    SearchVisitsInOrder(blocks, c, size);
    var order := SearchOrder(|blocks|, c);
    var r := CheckForAvailableBlockSpace(blocks, Some(c), size, true, true);
    var j := FirstStrictFit(blocks, order, size);
    if j.Some? {
      SearchOrderCovers(|blocks|, c, order[j.value]);
    } else {
      forall x | 0 <= x < |blocks| && (x < c || x == c + 1)
        ensures !StrictlyFits(blocks[x], size)
      {
        SearchOrderCovers(|blocks|, c, x);
        var i :| 0 <= i < |order| && order[i] == x;
        assert !FitsAt(blocks, order[i], size);
      }
    }
  }

  /** Blocks beyond the current block's successor never influence the search. */
  lemma SearchIgnoresFarBlocks(blocks: seq<ObjectDataBlock>, blocks': seq<ObjectDataBlock>, c: nat, size: nat)
    requires c + 2 <= |blocks| && c + 2 <= |blocks'| && blocks[..c + 2] == blocks'[..c + 2]
    ensures CheckForAvailableBlockSpace(blocks, Some(c), size, true, true)
         == CheckForAvailableBlockSpace(blocks', Some(c), size, true, true)
  {
    SearchVisitsInOrder(blocks, c, size);
    SearchVisitsInOrder(blocks', c, size);
    var order := SearchOrder(|blocks|, c);
    assert order == SearchOrder(|blocks'|, c);
    forall x | x in order ensures FitsAt(blocks, x, size) == FitsAt(blocks', x, size) {
      SearchOrderCovers(|blocks|, c, x);
      assert blocks[..c + 2][x] == blocks'[..c + 2][x];
    }
    FirstFitAgrees(blocks, blocks', order, size);
  }

  lemma {:induction false} FirstFitAgrees(blocks: seq<ObjectDataBlock>, blocks': seq<ObjectDataBlock>, order: seq<nat>, size: nat)
    requires forall x :: x in order ==> FitsAt(blocks, x, size) == FitsAt(blocks', x, size)
    ensures FirstStrictFit(blocks, order, size) == FirstStrictFit(blocks', order, size)
    decreases |order|
  {
    if order != [] {
      FirstFitAgrees(blocks, blocks', order[1..], size);
    }
  }

  /** The block an allocation of `size` lands in, by position; `|blocks|` stands
      for a new block linked after the head. */
  function ChooseBlock(blocks: seq<ObjectDataBlock>, current: nat, size: nat): nat
    requires current < |blocks|
  {
    if Fits(blocks[current], size) then current
    else match CheckForAvailableBlockSpace(blocks, Some(current), size, true, true)
      case Some(b) => b
      case None => |blocks|
  }

  /** The chosen existing block always has room, and a new block is made exactly
      when neither the current block nor any block the search covers has room. */
  lemma ChooseBlockHasRoom(blocks: seq<ObjectDataBlock>, current: nat, size: nat)
    requires current < |blocks|
    ensures var r := ChooseBlock(blocks, current, size);
      && r <= |blocks|
      && (r < |blocks| ==> Fits(blocks[r], size))
      && (r == |blocks| <==>
            (!Fits(blocks[current], size) &&
             forall x :: 0 <= x < |blocks| && (x < current || x == current + 1) ==> !StrictlyFits(blocks[x], size)))
  {
    SearchResult(blocks, current, size);
  }
}
