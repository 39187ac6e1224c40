/**
  The layout of the records of one data block, abstracted to their spans
  (offset, size) in the order the block lists them (allocation order).
 */
module Tiling {

  datatype Span = Span(offset: int, size: nat)

  function End(x: Span): int
  {
    x.offset + x.size
  }

  /** Records in list order do not overlap: each starts at or after the end of the
      one before it, and all end at or below `iter`. */
  ghost predicate Ordered(sp: seq<Span>, iter: int)
    decreases |sp|
  {
    if sp == [] then true
    else
      var n := |sp| - 1;
      End(sp[n]) <= iter && Ordered(sp[..n], sp[n].offset)
  }

  /** Records in list order cover `[0, iter)` exactly: the first starts at 0, each
      next one starts where the previous one ends, and the last one ends at `iter`. */
  ghost predicate Tiled(sp: seq<Span>, iter: int)
    decreases |sp|
  {
    if sp == [] then iter == 0
    else
      var n := |sp| - 1;
      End(sp[n]) == iter && Tiled(sp[..n], sp[n].offset)
  }

  /** The rebase step of compaction: a record that started after the freed offset
      `o` moves down by the freed size `s`; any other record stays. */
  function Shift(x: Span, o: int, s: nat): Span
  {
    if x.offset > o then Span(x.offset - s, x.size) else x
  }

  function ShiftAll(sp: seq<Span>, o: int, s: nat): (r: seq<Span>)
    ensures |r| == |sp|
  {
    seq(|sp|, i requires 0 <= i < |sp| => Shift(sp[i], o, s))
  }

  /** The spans of a block after record `k` is freed with compaction: the records
      listed before it are untouched, those listed after it are rebased. */
  function Compacted(sp: seq<Span>, k: nat): seq<Span>
    requires k < |sp|
  {
    sp[..k] + ShiftAll(sp[k + 1..], sp[k].offset, sp[k].size)
  }

  /** The spans of a block after record `k` is freed without compaction. */
  function Removed(sp: seq<Span>, k: nat): seq<Span>
    requires k < |sp|
  {
    sp[..k] + sp[k + 1..]
  }

  lemma {:induction false} TiledIsOrdered(sp: seq<Span>, iter: int)
    requires Tiled(sp, iter)
    ensures Ordered(sp, iter)
    decreases |sp|
  {
    if sp != [] {
      TiledIsOrdered(sp[..|sp| - 1], sp[|sp| - 1].offset);
    }
  }

  /** Every record of an ordered block ends at or below the bump offset. */
  lemma {:induction false} OrderedEnd(sp: seq<Span>, iter: int, i: nat)
    requires Ordered(sp, iter) && i < |sp|
    ensures End(sp[i]) <= iter
    decreases |sp|
  {
    var n := |sp| - 1;
    if i < n {
      assert sp[..n][i] == sp[i];
      OrderedEnd(sp[..n], sp[n].offset, i);
      assert sp[n].offset <= End(sp[n]);
    }
  }

  /** In an ordered block a record listed earlier ends at or before the start of
      any record listed later. */
  lemma {:induction false} OrderedBefore(sp: seq<Span>, iter: int, i: nat, j: nat)
    requires Ordered(sp, iter) && i < j < |sp|
    ensures End(sp[i]) <= sp[j].offset
    decreases |sp|
  {
    var n := |sp| - 1;
    assert sp[..n][i] == sp[i];
    if j == n {
      OrderedEnd(sp[..n], sp[n].offset, i);
    } else {
      assert sp[..n][j] == sp[j];
      OrderedBefore(sp[..n], sp[n].offset, i, j);
    }
  }

  /** A tiled block starts at 0, so no record has a negative offset. */
  lemma {:induction false} TiledFromZero(sp: seq<Span>, iter: int, i: nat)
    requires Tiled(sp, iter) && i < |sp|
    ensures 0 <= sp[i].offset
    decreases |sp|
  {
    var n := |sp| - 1;
    if i < n {
      assert sp[..n][i] == sp[i];
      TiledFromZero(sp[..n], sp[n].offset, i);
    } else if n > 0 {
      TiledFromZero(sp[..n], sp[n].offset, n - 1);
      assert sp[..n][n - 1] == sp[n - 1];
      TiledIsOrdered(sp[..n], sp[n].offset);
      OrderedEnd(sp[..n], sp[n].offset, n - 1);
    }
  }

  /** Bump allocation: a new record placed at the bump offset and listed last. */
  lemma AppendOrdered(sp: seq<Span>, iter: int, size: nat)
    requires Ordered(sp, iter)
    ensures Ordered(sp + [Span(iter, size)], iter + size)
  {
    assert (sp + [Span(iter, size)])[..|sp|] == sp;
  }

  lemma AppendTiled(sp: seq<Span>, iter: int, size: nat)
    requires Tiled(sp, iter)
    ensures Tiled(sp + [Span(iter, size)], iter + size)
  {
    assert (sp + [Span(iter, size)])[..|sp|] == sp;
  }

  /** Freeing without compaction leaves the remaining records ordered. */
  lemma {:induction false} RemoveOrdered(sp: seq<Span>, iter: int, k: nat)
    requires Ordered(sp, iter) && k < |sp|
    ensures Ordered(Removed(sp, k), iter)
    decreases |sp|
  {
    var n := |sp| - 1;
    if k == n {
      assert Removed(sp, k) == sp[..n];
      OrderedEnd(sp, iter, n);
      OrderedWeaken(sp[..n], sp[n].offset, iter);
    } else {
      var r := Removed(sp, k);
      assert r == Removed(sp[..n], k) + [sp[n]];
      assert r[..|r| - 1] == Removed(sp[..n], k);
      RemoveOrdered(sp[..n], sp[n].offset, k);
    }
  }

  lemma OrderedWeaken(sp: seq<Span>, iter: int, iter': int)
    requires Ordered(sp, iter) && iter <= iter'
    ensures Ordered(sp, iter')
  {
  }

  /** Freeing with compaction keeps a tiled block tiled, with its bump offset
      lowered by the freed size. */
  lemma {:induction false} CompactTiled(sp: seq<Span>, iter: int, k: nat)
    requires Tiled(sp, iter) && k < |sp|
    ensures Tiled(Compacted(sp, k), iter - sp[k].size)
    decreases |sp|
  {
    var n := |sp| - 1;
    var o, s := sp[k].offset, sp[k].size;
    if k == n {
      assert Compacted(sp, k) == sp[..n];
    } else {
      var c := Compacted(sp, k);
      var c0 := Compacted(sp[..n], k);
      CompactedSnoc(sp, k);
      assert c[..|c| - 1] == c0;
      CompactTiled(sp[..n], sp[n].offset, k);
      TiledIsOrdered(sp, iter);
      OrderedBefore(sp, iter, k, n);
      assert Shift(sp[n], o, s) == Span(sp[n].offset - s, sp[n].size);
    }
  }

  /** Compacting a block and then listing one more record equals compacting with
      that record already listed (it is rebased like the others). */
  lemma CompactedSnoc(sp: seq<Span>, k: nat)
    requires k + 1 < |sp|
    ensures var n := |sp| - 1;
      Compacted(sp, k) == Compacted(sp[..n], k) + [Shift(sp[n], sp[k].offset, sp[k].size)]
  {
    var n := |sp| - 1;
    var o, s := sp[k].offset, sp[k].size;
    assert sp[..n][k] == sp[k];
    assert sp[k + 1..] == sp[..n][k + 1..] + [sp[n]];
    assert ShiftAll(sp[k + 1..], o, s) == ShiftAll(sp[..n][k + 1..], o, s) + [Shift(sp[n], o, s)];
  }

  /** Under compaction every record listed after the freed one starts at or after
      the freed record's end, so the rebase test `offset > o` moves each of them
      (or the freed size is 0 and moving changes nothing). */
  lemma CompactedAfter(sp: seq<Span>, iter: int, k: nat, j: nat)
    requires Ordered(sp, iter) && k < j < |sp|
    ensures Compacted(sp, k)[j - 1] == Span(sp[j].offset - sp[k].size, sp[j].size)
  {
    OrderedBefore(sp, iter, k, j);
  }
}
