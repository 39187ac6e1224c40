/**
  The C library's `memmove` on a block's byte buffer, which compaction uses to
  slide the bytes above a freed record down over it.
 */
module Bytes {

  /** The buffer after `n` bytes at `src` are copied to `dst`. The copy behaves as
      if it went through a temporary, so overlapping ranges are handled. */
  ghost function Moved(bytes: seq<bv8>, dst: nat, src: nat, n: nat): seq<bv8>
    requires dst + n <= |bytes| && src + n <= |bytes|
  {
    seq(|bytes|, x requires 0 <= x < |bytes| => if dst <= x < dst + n then bytes[x - dst + src] else bytes[x])
  }

  /** memmove(&mem[dst], &mem[src], n). */
  method MemMove(mem: array<bv8>, dst: nat, src: nat, n: nat)
    requires dst + n <= mem.Length && src + n <= mem.Length
    modifies mem
    ensures mem[..] == Moved(old(mem[..]), dst, src, n)
  {
    forall x | dst <= x < dst + n {
      mem[x] := mem[x - dst + src];
    }
  }

  /** Bytes below the destination are left as they were. */
  lemma MovedBelow(bytes: seq<bv8>, dst: nat, src: nat, n: nat, lo: nat, hi: nat)
    requires dst + n <= |bytes| && src + n <= |bytes|
    requires lo <= hi <= dst
    ensures |Moved(bytes, dst, src, n)| == |bytes|
    ensures Moved(bytes, dst, src, n)[lo..hi] == bytes[lo..hi]
  {
    var m := Moved(bytes, dst, src, n);
    assert forall x :: lo <= x < hi ==> m[x] == bytes[x];
  }

  /** Any window of the source range arrives intact, displaced by `dst - src`. */
  lemma MovedWindow(bytes: seq<bv8>, dst: nat, src: nat, n: nat, lo: nat, hi: nat)
    requires dst + n <= |bytes| && src + n <= |bytes|
    requires src <= lo <= hi <= src + n
    ensures |Moved(bytes, dst, src, n)| == |bytes|
    ensures Moved(bytes, dst, src, n)[lo - src + dst..hi - src + dst] == bytes[lo..hi]
  {
    var m := Moved(bytes, dst, src, n);
    var d := lo - src + dst;
    assert forall x :: d <= x < d + (hi - lo) ==> m[x] == bytes[x - d + lo];
  }
}
