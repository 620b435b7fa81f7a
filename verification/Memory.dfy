/** Byte-by-byte block copies inside one memory. */
module Memory {

  /** The memory after the block `[src, src + n)` as it was has been put at `dest`. */
  function Moved<T>(m: seq<T>, dest: nat, src: nat, n: nat): (r: seq<T>)
    requires dest + n <= |m| && src + n <= |m|
    ensures |r| == |m|
    ensures r[dest..dest + n] == m[src..src + n]
    ensures r[..dest] == m[..dest] && r[dest + n..] == m[dest + n..]
  {
    m[..dest] + m[src..src + n] + m[dest + n..]
  }

  lemma MovedAt<T>(m: seq<T>, dest: nat, src: nat, n: nat, k: nat)
    requires dest + n <= |m| && src + n <= |m| && k < |m|
    ensures Moved(m, dest, src, n)[k] == if dest <= k < dest + n then m[src + (k - dest)] else m[k]
  {
  }

  /** Places `lo` to `hi` of the memory hold what it held from `src` on, the others what they held. */
  ghost predicate Copied<T>(m: seq<T>, after: seq<T>, lo: int, hi: int, src: int) {
    && |after| == |m| && 0 <= lo <= hi <= |m| && 0 <= src && src + (hi - lo) <= |m|
    && forall k {:trigger after[k]} :: 0 <= k < |m| ==>
                                         after[k] == if lo <= k < hi then m[src + (k - lo)] else m[k]
  }

  lemma IsMoved<T>(m: seq<T>, after: seq<T>, dest: nat, src: nat, n: nat)
    requires dest + n <= |m| && src + n <= |m| && Copied(m, after, dest, dest + n, src)
    ensures after == Moved(m, dest, src, n)
  {
    forall k | 0 <= k < |m|
      ensures after[k] == Moved(m, dest, src, n)[k]
    {
      MovedAt(m, dest, src, n, k);
    }
  }

  /** `memmove`: the copy runs upwards when the source is not below the destination and downwards
      otherwise, so an overlap is never read after it has been written. */
  method Memmove<T>(mem: array<T>, dest: nat, src: nat, n: nat)
    requires dest + n <= mem.Length && src + n <= mem.Length
    modifies mem
    ensures mem[..] == Moved(old(mem[..]), dest, src, n)
  {
    if src >= dest {
      Memcpy(mem, dest, src, n);
    } else {
      ghost var was := mem[..];
      var left := n;
      while left > 0
        invariant 0 <= left <= n
        invariant Copied(was, mem[..], dest + left, dest + n, src + left)
      {
        mem[dest + left - 1] := mem[src + left - 1];
        left := left - 1;
      }
      IsMoved(was, mem[..], dest, src, n);
    }
  }

  /** `memcpy`: an upward copy, right for blocks that do not overlap or move down. */
  method Memcpy<T>(mem: array<T>, dest: nat, src: nat, n: nat)
    requires dest + n <= mem.Length && src + n <= mem.Length
    requires dest <= src || src + n <= dest
    modifies mem
    ensures mem[..] == Moved(old(mem[..]), dest, src, n)
  {
    ghost var was := mem[..];
    var i := 0;
    while i < n
      invariant 0 <= i <= n
      invariant Copied(was, mem[..], dest, dest + i, src)
    {
      mem[dest + i] := mem[src + i];
      i := i + 1;
    }
    IsMoved(was, mem[..], dest, src, n);
  }
}
