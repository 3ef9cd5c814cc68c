/** CyU3PMemCopy (src/cyfx/cyfx_tx.c): both blocks lie in one memory and may overlap. */
module MemCopy {
  import opened Bytes

  /** Memory after copying count bytes from src to dest as if through a temporary. */
  ghost function Moved(mem: seq<byte>, dest: nat, src: nat, count: nat): seq<byte>
    requires dest + count <= |mem| && src + count <= |mem|
  {
    mem[..dest] + mem[src..src + count] + mem[dest + count..]
  }

  /** Bytes [from, to) of the destination hold the old source, everything else is old. */
  ghost predicate CopiedPart(was: seq<byte>, now: seq<byte>, dest: nat, src: nat, from: nat, to: nat)
    requires from <= to && dest + to <= |was| && src + to <= |was|
  {
    && |now| == |was|
    && (forall i :: dest + from <= i < dest + to ==> now[i] == was[i - dest + src])
    && (forall i :: 0 <= i < |was| && !(dest + from <= i < dest + to) ==> now[i] == was[i])
  }

  lemma {:induction false} CopiedAll(was: seq<byte>, now: seq<byte>, dest: nat, src: nat, count: nat)
    requires dest + count <= |was| && src + count <= |was| && CopiedPart(was, now, dest, src, 0, count)
    ensures now == Moved(was, dest, src, count)
  {
  }

  /** One byte more at the lower end, when the destination is above the source. */
  lemma {:induction false} CopyBelow(was: seq<byte>, now: seq<byte>, dest: nat, src: nat, from: nat, to: nat)
    requires src < dest && 0 < from <= to && dest + to <= |was| && src + to <= |was|
    requires CopiedPart(was, now, dest, src, from, to)
    ensures CopiedPart(was, now[dest + from - 1 := now[src + from - 1]], dest, src, from - 1, to)
  {
  }

  /** One byte more at the upper end, when it is not. */
  lemma {:induction false} CopyAbove(was: seq<byte>, now: seq<byte>, dest: nat, src: nat, to: nat)
    requires dest <= src && dest + to < |was| && src + to < |was|
    requires CopiedPart(was, now, dest, src, 0, to)
    ensures CopiedPart(was, now[dest + to := now[src + to]], dest, src, 0, to + 1)
  {
  }

  /** *d = *s going down */
  method PutBelow(mem: array<byte>, d: nat, s: nat, ghost was: seq<byte>, ghost dest: nat, ghost src: nat,
                  ghost from: nat, ghost to: nat)
    requires src < dest && from < to && dest + to <= |was| && src + to <= |was|
    requires CopiedPart(was, mem[..], dest, src, from + 1, to) && d == dest + from && s == src + from
    modifies mem
    ensures CopiedPart(was, mem[..], dest, src, from, to)
  {
    CopyBelow(was, mem[..], dest, src, from + 1, to);
    assert mem[..][s] == mem[s];
    mem[d] := mem[s];
  }

  /** *d = *s going up */
  method PutAbove(mem: array<byte>, d: nat, s: nat, ghost was: seq<byte>, ghost dest: nat, ghost src: nat,
                  ghost to: nat)
    requires dest <= src && dest + to < |was| && src + to < |was|
    requires CopiedPart(was, mem[..], dest, src, 0, to) && d == dest + to && s == src + to
    modifies mem
    ensures CopiedPart(was, mem[..], dest, src, 0, to + 1)
  {
    CopyAbove(was, mem[..], dest, src, to);
    assert mem[..][s] == mem[s];
    mem[d] := mem[s];
  }

  method Copy(mem: array<byte>, dest: nat, src: nat, count: nat)
    requires dest + count <= mem.Length && src + count <= mem.Length
    modifies mem
    ensures mem[..] == Moved(old(mem[..]), dest, src, count)
  {
    ghost var was := mem[..];
    var n := count;
    if dest > src {
      var d, s := dest + count, src + count;
      while n >= 8
        invariant 0 <= n <= count && d == dest + n && s == src + n
        invariant CopiedPart(was, mem[..], dest, src, n, count)
      {
        d, s, n := d - 8, s - 8, n - 8;
        PutBelow(mem, d + 7, s + 7, was, dest, src, n + 7, count);
        PutBelow(mem, d + 6, s + 6, was, dest, src, n + 6, count);
        PutBelow(mem, d + 5, s + 5, was, dest, src, n + 5, count);
        PutBelow(mem, d + 4, s + 4, was, dest, src, n + 4, count);
        PutBelow(mem, d + 3, s + 3, was, dest, src, n + 3, count);
        PutBelow(mem, d + 2, s + 2, was, dest, src, n + 2, count);
        PutBelow(mem, d + 1, s + 1, was, dest, src, n + 1, count);
        PutBelow(mem, d, s, was, dest, src, n, count);
      }
      while n > 0
        invariant 0 <= n <= count && d == dest + n && s == src + n
        invariant CopiedPart(was, mem[..], dest, src, n, count)
      {
        d, s, n := d - 1, s - 1, n - 1;
        PutBelow(mem, d, s, was, dest, src, n, count);
      }
    } else {
      var d, s := dest, src;
      while n >= 8
        invariant 0 <= n <= count && d == dest + (count - n) && s == src + (count - n)
        invariant CopiedPart(was, mem[..], dest, src, 0, count - n)
      {
        ghost var to := count - n;
        PutAbove(mem, d, s, was, dest, src, to);
        PutAbove(mem, d + 1, s + 1, was, dest, src, to + 1);
        PutAbove(mem, d + 2, s + 2, was, dest, src, to + 2);
        PutAbove(mem, d + 3, s + 3, was, dest, src, to + 3);
        PutAbove(mem, d + 4, s + 4, was, dest, src, to + 4);
        PutAbove(mem, d + 5, s + 5, was, dest, src, to + 5);
        PutAbove(mem, d + 6, s + 6, was, dest, src, to + 6);
        PutAbove(mem, d + 7, s + 7, was, dest, src, to + 7);
        d, s, n := d + 8, s + 8, n - 8;
      }
      while n > 0
        invariant 0 <= n <= count && d == dest + (count - n) && s == src + (count - n)
        invariant CopiedPart(was, mem[..], dest, src, 0, count - n)
      {
        PutAbove(mem, d, s, was, dest, src, count - n);
        d, s, n := d + 1, s + 1, n - 1;
      }
    }
    CopiedAll(was, mem[..], dest, src, count);
  }
}
