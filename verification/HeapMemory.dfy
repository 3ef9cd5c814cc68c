/**
 The lwIP heap in memory: `struct mem` headers at offsets of the `ram` buffer, linked by
 next and prev, with the lowest-free pointer and the statistics, updated in place
 (lib/lwip/src/core/mem.c).
 */
module HeapMemory {
  import opened Options
  import opened HeapChain
  import opened HeapRuns

  datatype Header = Header(next: int, prev: int, used: bool)

  /** The headers in memory spell out the chain, and ram_end its end mark. */
  ghost predicate Linked(c: Config, ram: seq<Header>, bs: seq<Block>) {
    && |ram| == c.memSize + 1
    && ram[c.memSize] == Header(c.memSize, c.memSize, true)
    && (forall i :: 0 <= i < |bs| ==> 0 <= bs[i].addr < c.memSize && Says(ram[bs[i].addr], bs[i]))
    && (|bs| > 0 ==> ram[bs[0].addr].prev == 0)
    && (forall i :: 0 < i < |bs| ==> LinkedBack(ram, bs, i))
    && NoStray(c, ram, bs)
  }

  /** The header of block i links back to the block before. */
  ghost predicate LinkedBack(ram: seq<Header>, bs: seq<Block>, i: nat)
    requires 0 < i < |bs|
  {
    0 <= bs[i].addr < |ram| && ram[bs[i].addr].prev == bs[i - 1].addr
  }

  predicate IsHead(bs: seq<Block>, a: int) {
    exists i :: 0 <= i < |bs| && bs[i].addr == a
  }

  /** A header that has left the chain is not marked used: only free blocks are ever merged or moved away. */
  ghost predicate NoStray(c: Config, ram: seq<Header>, bs: seq<Block>)
    requires |ram| == c.memSize + 1
  {
    forall a {:trigger IsHead(bs, a)} :: 0 <= a < c.memSize && ram[a].used ==> IsHead(bs, a)
  }

  ghost predicate Says(h: Header, b: Block) {
    h.next == b.end && h.used == b.used
  }

  /** A header that was ever written, in the chain or not, points at least a minimal block on, into the heap. */
  predicate HeaderSane(c: Config, a: int, h: Header) {
    h.next == 0 || a + c.headerSize + c.minSize <= h.next <= c.memSize
  }

  ghost predicate Sane(c: Config, ram: seq<Header>) {
    |ram| == c.memSize + 1 && forall a :: 0 <= a < c.memSize ==> HeaderSane(c, a, ram[a])
  }

  /** mem_link_valid as a condition on memory. */
  predicate LinkOk(c: Config, ram: seq<Header>, mem: int)
    requires |ram| == c.memSize + 1 && 0 <= mem <= c.memSize
  {
    var h := ram[mem];
    && 0 <= h.next <= c.memSize && 0 <= h.prev <= c.memSize
    && (h.prev == mem || ram[h.prev].next == mem)
    && (h.next == c.memSize || ram[h.next].prev == mem)
  }

  /** Every block of the chain passes mem_link_valid. */
  lemma {:induction false} ChainLinkOk(c: Config, ram: seq<Header>, bs: seq<Block>, i: nat)
    requires ValidConfig(c) && Tiled(c, bs) && Linked(c, ram, bs) && i < |bs|
    ensures LinkOk(c, ram, bs[i].addr)
  {
    assert BlockOk(c, bs[i]) && Says(ram[bs[i].addr], bs[i]);
    if 0 < i {
      assert Says(ram[bs[i - 1].addr], bs[i - 1]) && bs[i - 1].end == bs[i].addr && LinkedBack(ram, bs, i);
    }
    if i + 1 < |bs| {
      assert LinkedBack(ram, bs, i + 1) && bs[i].end == bs[i + 1].addr;
    }
  }

  /** ram' is ram with the headers of the new blocks written over the stretch [i, j). */
  ghost predicate Rewritten(c: Config, ram: seq<Header>, ram': seq<Header>, bs: seq<Block>, i: nat, j: nat,
                            mid: seq<Block>)
    requires i < j <= |bs| && 0 < |mid|
    requires |ram| == c.memSize + 1 && 0 <= bs[i].addr < c.memSize && (j < |bs| ==> 0 <= bs[j].addr < c.memSize)
  {
    && |ram'| == |ram|
    && ram'[c.memSize] == ram[c.memSize]
    && (forall a :: 0 <= a < |ram| && (a < bs[i].addr || bs[j - 1].end < a) ==> ram'[a] == ram[a])
    && (forall k :: 0 <= k < |mid| ==> 0 <= mid[k].addr < c.memSize && Says(ram'[mid[k].addr], mid[k]))
    && ram'[mid[0].addr].prev == ram[bs[i].addr].prev
    && (forall k, m :: 0 <= k < |mid| && m == k + 1 < |mid| ==> ram'[mid[m].addr].prev == mid[k].addr)
    && (j < |bs| ==> ram'[bs[j].addr] == Header(bs[j].end, mid[|mid| - 1].addr, bs[j].used))
    && mid[0].addr == bs[i].addr && (forall k :: i < k < j ==> !bs[k].used)
    && (forall a :: 0 <= a < c.memSize && ram'[a].used && a != bs[i].addr ==> ram[a].used)
  }

  /** Such memory is linked again. */
  lemma {:induction false} LinkedSplice(c: Config, ram: seq<Header>, ram': seq<Header>, bs: seq<Block>, i: nat,
                                        j: nat, mid: seq<Block>)
    requires ValidConfig(c) && Tiled(c, bs) && Linked(c, ram, bs)
    requires i < j <= |bs| && 0 < |mid| && Rewritten(c, ram, ram', bs, i, j, mid)
    ensures Linked(c, ram', Splice(bs, i, j, mid))
  {
    var ns := Splice(bs, i, j, mid);
    forall k | 0 <= k < |ns| ensures 0 <= ns[k].addr < c.memSize && Says(ram'[ns[k].addr], ns[k]) {
      SplicedHeader(c, ram, ram', bs, i, j, mid, k);
    }
    forall k | 0 < k < |ns| ensures LinkedBack(ram', ns, k) {
      SplicedPrev(c, ram, ram', bs, i, j, mid, k - 1);
    }
    if 0 < i {
      assert ns[0] == bs[0];
      UntouchedHeader(c, ram, ram', bs, i, j, mid, 0);
    } else {
      assert ns[0] == mid[0];
    }
    SpliceNoStray(c, ram, ram', bs, i, j, mid);
  }

  lemma {:induction false} SpliceNoStray(c: Config, ram: seq<Header>, ram': seq<Header>, bs: seq<Block>, i: nat, j: nat,
                                         mid: seq<Block>)
    requires ValidConfig(c) && Tiled(c, bs) && Linked(c, ram, bs)
    requires i < j <= |bs| && 0 < |mid| && Rewritten(c, ram, ram', bs, i, j, mid)
    ensures NoStray(c, ram', Splice(bs, i, j, mid))
  {
    var ns := Splice(bs, i, j, mid);
    forall a | 0 <= a < c.memSize && ram'[a].used ensures IsHead(ns, a) {
      if a == bs[i].addr {
        assert ns[i].addr == a;
      } else {
        assert IsHead(bs, a);
        var m :| 0 <= m < |bs| && bs[m].addr == a;
        assert Says(ram[a], bs[m]);
        if m < i { assert ns[m] == bs[m]; } else { assert ns[m - (j - i) + |mid|] == bs[m]; }
      }
    }
  }

  /** Headers of blocks other than those replaced and the next one are as before. */
  lemma {:induction false} UntouchedHeader(c: Config, ram: seq<Header>, ram': seq<Header>, bs: seq<Block>, i: nat,
                                           j: nat, mid: seq<Block>, k: nat)
    requires ValidConfig(c) && Tiled(c, bs) && Linked(c, ram, bs)
    requires i < j <= |bs| && 0 < |mid| && Rewritten(c, ram, ram', bs, i, j, mid)
    requires k < i || j < k < |bs|
    ensures ram'[bs[k].addr] == ram[bs[k].addr]
  {
    if k < i {
      Ordered(c, bs, k, i);
      assert BlockOk(c, bs[k]);
    } else {
      Ordered(c, bs, j, k);
      assert BlockOk(c, bs[j]) && bs[j - 1].end == bs[j].addr;
    }
  }

  lemma {:induction false} SplicedHeader(c: Config, ram: seq<Header>, ram': seq<Header>, bs: seq<Block>, i: nat,
                                         j: nat, mid: seq<Block>, k: nat)
    requires ValidConfig(c) && Tiled(c, bs) && Linked(c, ram, bs)
    requires i < j <= |bs| && 0 < |mid| && Rewritten(c, ram, ram', bs, i, j, mid)
    requires k < |Splice(bs, i, j, mid)|
    ensures var b := Splice(bs, i, j, mid)[k]; 0 <= b.addr < c.memSize && Says(ram'[b.addr], b)
  {
    var b := Splice(bs, i, j, mid)[k];
    if k < i {
      assert b == bs[k];
      UntouchedHeader(c, ram, ram', bs, i, j, mid, k);
    } else if k < i + |mid| {
      assert b == mid[k - i];
    } else {
      var m := k - |mid| + (j - i);
      assert b == bs[m];
      if j < m { UntouchedHeader(c, ram, ram', bs, i, j, mid, m); }
    }
  }

  lemma {:induction false} SplicedPrev(c: Config, ram: seq<Header>, ram': seq<Header>, bs: seq<Block>, i: nat,
                                       j: nat, mid: seq<Block>, k: nat)
    requires ValidConfig(c) && Tiled(c, bs) && Linked(c, ram, bs)
    requires i < j <= |bs| && 0 < |mid| && Rewritten(c, ram, ram', bs, i, j, mid)
    requires k + 1 < |Splice(bs, i, j, mid)|
    ensures var b, d := Splice(bs, i, j, mid)[k], Splice(bs, i, j, mid)[k + 1];
      0 <= d.addr < c.memSize && ram'[d.addr].prev == b.addr
  {
    var b, d := Splice(bs, i, j, mid)[k], Splice(bs, i, j, mid)[k + 1];
    if k + 1 < i {
      assert b == bs[k] && d == bs[k + 1] && LinkedBack(ram, bs, k + 1);
      UntouchedHeader(c, ram, ram', bs, i, j, mid, k + 1);
    } else if k + 1 == i {
      assert b == bs[i - 1] && d == mid[0];
      assert LinkedBack(ram, bs, i);
    } else if k + 1 < i + |mid| {
      assert b == mid[k - i] && d == mid[k + 1 - i];
    } else if k + 1 == i + |mid| {
      assert b == mid[|mid| - 1] && d == bs[j];
    } else {
      var m := k - |mid| + (j - i);
      assert b == bs[m] && d == bs[m + 1] && LinkedBack(ram, bs, m + 1);
      UntouchedHeader(c, ram, ram', bs, i, j, mid, m + 1);
    }
  }

  /** Memory after those writes, as a function. */
  function SplitWrites(c: Config, ram: seq<Header>, a: int, cut: int, e: int, used: bool): seq<Header>
    requires |ram| == c.memSize + 1 && 0 <= a < cut <= c.memSize && 0 <= e <= c.memSize
  {
    var split := ram[cut := Header(e, a, false)][a := Header(cut, ram[a].prev, used)];
    if e != c.memSize then split[e := split[e].(prev := cut)] else split
  }

  /** Writes that end block i at cut and put a free header there for the rest of the stretch [i, j). */
  lemma {:induction false} SplitRewritten(c: Config, ram: seq<Header>, bs: seq<Block>, i: nat, j: nat, cut: int,
                                          used: bool,
                                          ram': seq<Header>)
    requires ValidConfig(c) && Tiled(c, bs) && Linked(c, ram, bs)
    requires i < j <= |bs| && forall k :: i < k < j ==> !bs[k].used
    requires 0 <= bs[i].addr < cut < bs[j - 1].end <= c.memSize
    requires ram' == SplitWrites(c, ram, bs[i].addr, cut, bs[j - 1].end, used)
    ensures Rewritten(c, ram, ram', bs, i, j, [Block(bs[i].addr, cut, used), Block(cut, bs[j - 1].end, false)])
  {
    var mid := [Block(bs[i].addr, cut, used), Block(cut, bs[j - 1].end, false)];
    SplitSays(c, ram, bs[i].addr, cut, bs[j - 1].end, used, mid);
    assert BlockOk(c, bs[i]) && BlockOk(c, bs[j - 1]);
    if j < |bs| {
      assert BlockOk(c, bs[j]) && bs[j - 1].end == bs[j].addr && Says(ram[bs[j].addr], bs[j]);
    } else {
      assert bs[j - 1].end == c.memSize;
    }
  }

  lemma {:induction false} SplitSays(c: Config, ram: seq<Header>, a: int, cut: int, e: int, used: bool,
                                     mid: seq<Block>)
    requires |ram| == c.memSize + 1 && 0 <= a < cut < e <= c.memSize
    requires mid == [Block(a, cut, used), Block(cut, e, false)]
    ensures var ram' := SplitWrites(c, ram, a, cut, e, used);
      && |ram'| == |ram| && ram'[c.memSize] == ram[c.memSize]
      && (forall x :: 0 <= x < |ram| && x != a && x != cut && x != e ==> ram'[x] == ram[x])
      && (forall k :: 0 <= k < |mid| ==> 0 <= mid[k].addr < c.memSize && Says(ram'[mid[k].addr], mid[k]))
      && ram'[a].prev == ram[a].prev && ram'[cut].prev == a
      && (e != c.memSize ==> ram'[e] == ram[e].(prev := cut))
      && (forall x :: 0 <= x < c.memSize && ram'[x].used && x != a ==> ram[x].used)
  {
  }

  lemma {:induction false} SplitLinked(c: Config, ram: seq<Header>, bs: seq<Block>, i: nat, j: nat, cut: int,
                                       used: bool)
    requires ValidConfig(c) && Tiled(c, bs) && Linked(c, ram, bs)
    requires i < j <= |bs| && forall k :: i < k < j ==> !bs[k].used
    requires 0 <= bs[i].addr < cut < bs[j - 1].end <= c.memSize
    ensures Linked(c, SplitWrites(c, ram, bs[i].addr, cut, bs[j - 1].end, used),
                   Splice(bs, i, j, [Block(bs[i].addr, cut, used), Block(cut, bs[j - 1].end, false)]))
  {
    var ram' := SplitWrites(c, ram, bs[i].addr, cut, bs[j - 1].end, used);
    SplitRewritten(c, ram, bs, i, j, cut, used, ram');
    LinkedSplice(c, ram, ram', bs, i, j, [Block(bs[i].addr, cut, used), Block(cut, bs[j - 1].end, false)]);
  }

  lemma {:induction false} SplitSane(c: Config, ram: seq<Header>, a: int, cut: int, e: int, used: bool)
    requires ValidConfig(c) && Sane(c, ram) && 0 <= a && a + c.headerSize + c.minSize <= cut
    requires cut + c.headerSize + c.minSize <= e <= c.memSize
    ensures Sane(c, SplitWrites(c, ram, a, cut, e, used))
  {
  }

  lemma {:induction false} PiecesSane(c: Config, ram: seq<Header>, bs: seq<Block>, i: nat, j: nat, b: Block, d: Block)
    requires ValidConfig(c) && Sane(c, ram) && i < j <= |bs| && Tiled(c, Splice(bs, i, j, [b, d]))
    requires 0 <= b.addr < b.end == d.addr < d.end <= c.memSize
    ensures Sane(c, SplitWrites(c, ram, b.addr, b.end, d.end, b.used))
  {
    var ns := Splice(bs, i, j, [b, d]);
    assert ns[i] == b && ns[i + 1] == d && BlockOk(c, ns[i]) && BlockOk(c, ns[i + 1]);
    SplitSane(c, ram, b.addr, b.end, d.end, b.used);
  }

  lemma {:induction false} FlagLinked(c: Config, ram: seq<Header>, bs: seq<Block>, i: nat, used: bool)
    requires ValidConfig(c) && Tiled(c, bs) && Linked(c, ram, bs) && i < |bs|
    ensures Linked(c, ram[bs[i].addr := ram[bs[i].addr].(used := used)], Splice(bs, i, i + 1, [bs[i].(used := used)]))
  {
    FlagRewritten(c, ram, bs, i, used);
    LinkedSplice(c, ram, ram[bs[i].addr := ram[bs[i].addr].(used := used)], bs, i, i + 1, [bs[i].(used := used)]);
  }

  lemma {:induction false} FlagRewritten(c: Config, ram: seq<Header>, bs: seq<Block>, i: nat, used: bool)
    requires ValidConfig(c) && Tiled(c, bs) && Linked(c, ram, bs) && i < |bs|
    ensures Rewritten(c, ram, ram[bs[i].addr := ram[bs[i].addr].(used := used)], bs, i, i + 1, [bs[i].(used := used)])
  {
    assert BlockOk(c, bs[i]);
    if i + 1 < |bs| {
      assert BlockOk(c, bs[i + 1]) && bs[i].end == bs[i + 1].addr && LinkedBack(ram, bs, i + 1);
    }
  }

  /** Index of the block lfree designates, |bs| for ram_end. */
  ghost function LowestFreeIndex(c: Config, bs: seq<Block>): (k: nat)
    ensures k <= |bs|
    ensures LowestFree(c, bs) == if k < |bs| then bs[k].addr else c.memSize
    ensures forall m :: 0 <= m < k ==> bs[m].used
    ensures k < |bs| ==> !bs[k].used
  {
    LowestFreeIndexFrom(c, bs, 0)
  }

  ghost function LowestFreeIndexFrom(c: Config, bs: seq<Block>, i: nat): (k: nat)
    requires i <= |bs|
    ensures i <= k <= |bs|
    ensures LowestFreeFrom(c, bs, i) == if k < |bs| then bs[k].addr else c.memSize
    ensures forall m :: i <= m < k ==> bs[m].used
    ensures k < |bs| ==> !bs[k].used
    decreases |bs| - i
  {
    if i == |bs| || !bs[i].used then i else LowestFreeIndexFrom(c, bs, i + 1)
  }

  /** The early stop of the scan loses nothing: no block at or above the stop offset is large enough. */
  lemma {:induction false} NoneFitsAbove(c: Config, bs: seq<Block>, k: nat, size: int)
    requires ValidConfig(c) && Tiled(c, bs) && k <= |bs|
    requires k < |bs| ==> c.memSize - size <= bs[k].addr
    ensures forall m :: k <= m < |bs| ==> !Fits(c, bs[m], size)
  {
    forall m | k <= m < |bs| ensures !Fits(c, bs[m], size) {
      assert BlockOk(c, bs[m]) && BlockOk(c, bs[k]);
      if k < m { Ordered(c, bs, k, m); }
    }
  }

  /** Taking block i moves lfree only if lfree was that block; all blocks before i that were used still are. */
  lemma {:induction false} LowestFreeAfterAlloc(c: Config, bs: seq<Block>, i: nat, size: int)
    requires ValidConfig(c) && Tiled(c, bs) && i < |bs| && !bs[i].used
    ensures var ns := AllocAt(c, bs, i, size);
      && i < |ns| && ns[i].addr == bs[i].addr
      && (bs[i].addr == LowestFree(c, bs) ==> LowestFree(c, ns) == LowestFreeFrom(c, ns, i))
      && (bs[i].addr != LowestFree(c, bs) ==> LowestFree(c, ns) == LowestFree(c, bs))
  {
    var ns := AllocAt(c, bs, i, size);
    AllocAtFront(c, bs, i, size);
    var k := LowestFreeIndex(c, bs);
    assert k <= i;
    if k == i {
      assert forall m :: 0 <= m < i ==> ns[m] == bs[m];
      SkipUsed(c, ns, 0, i);
    } else {
      assert bs[k].addr != bs[i].addr by {
        if bs[k].addr == bs[i].addr { AddrUnique(c, bs, k, i); }
      }
      assert forall m :: 0 <= m <= k ==> ns[m] == bs[m];
      LowestFreeAt(c, ns, 0, k);
    }
  }

  lemma {:induction false} SkipUsed(c: Config, bs: seq<Block>, i: nat, j: nat)
    requires i <= j <= |bs| && forall m :: i <= m < j ==> bs[m].used
    ensures LowestFreeFrom(c, bs, i) == LowestFreeFrom(c, bs, j)
    decreases j - i
  {
    if i < j { SkipUsed(c, bs, i + 1, j); }
  }

  // ----- joining free neighbours -----

  /** Blocks i and i + 1 under the header of block i. */
  function Join(bs: seq<Block>, i: nat): seq<Block>
    requires i + 1 < |bs|
  {
    Splice(bs, i, i + 2, [Block(bs[i].addr, bs[i + 1].end, bs[i].used)])
  }

  function JoinForward(bs: seq<Block>, i: nat): seq<Block>
    requires i < |bs|
  {
    if i + 1 < |bs| && !bs[i + 1].used then Join(bs, i) else bs
  }

  function JoinBackward(bs: seq<Block>, i: nat): seq<Block>
    requires i < |bs|
  {
    if 0 < i && !bs[i - 1].used then Join(bs, i - 1) else bs
  }

  function Unmark(bs: seq<Block>, i: nat): seq<Block>
    requires i < |bs|
  {
    Splice(bs, i, i + 1, [bs[i].(used := false)])
  }

  lemma {:induction false} UnmarkShape(bs: seq<Block>, i: nat)
    requires i < |bs|
    ensures Unmark(bs, i) == bs[i := bs[i].(used := false)]
  {
  }

  lemma {:induction false} JoinTiled(c: Config, bs: seq<Block>, i: nat)
    requires ValidConfig(c) && Tiled(c, bs) && i + 1 < |bs|
    ensures Tiled(c, Join(bs, i))
  {
    assert BlockOk(c, bs[i]) && BlockOk(c, bs[i + 1]) && bs[i].end == bs[i + 1].addr;
    SpliceTiled(c, bs, i, i + 2, [Block(bs[i].addr, bs[i + 1].end, bs[i].used)]);
  }

  /** Memory after plug_holes has made the header at a reach to e. */
  function JoinWrites(c: Config, ram: seq<Header>, a: int, e: int): seq<Header>
    requires |ram| == c.memSize + 1 && 0 <= a <= c.memSize && 0 <= e <= c.memSize
  {
    var w := ram[a := ram[a].(next := e)];
    if e != c.memSize then w[e := w[e].(prev := a)] else w
  }

  lemma {:induction false} JoinRewritten(c: Config, ram: seq<Header>, bs: seq<Block>, i: nat)
    requires ValidConfig(c) && Tiled(c, bs) && Linked(c, ram, bs) && i + 1 < |bs| && !bs[i + 1].used
    requires 0 <= bs[i].addr < bs[i + 1].end <= c.memSize
    ensures Rewritten(c, ram, JoinWrites(c, ram, bs[i].addr, bs[i + 1].end), bs, i, i + 2,
                      [Block(bs[i].addr, bs[i + 1].end, bs[i].used)])
  {
    assert BlockOk(c, bs[i]) && BlockOk(c, bs[i + 1]) && bs[i].end == bs[i + 1].addr;
    if i + 2 < |bs| {
      assert BlockOk(c, bs[i + 2]) && bs[i + 1].end == bs[i + 2].addr && Says(ram[bs[i + 2].addr], bs[i + 2]);
    }
  }

  lemma {:induction false} JoinSane(c: Config, ram: seq<Header>, a: int, e: int)
    requires ValidConfig(c) && Sane(c, ram) && 0 <= a && a + c.headerSize + c.minSize <= e <= c.memSize
    ensures Sane(c, JoinWrites(c, ram, a, e))
  {
  }

  lemma {:induction false} JoinLinked(c: Config, ram: seq<Header>, bs: seq<Block>, i: nat)
    requires ValidConfig(c) && Tiled(c, bs) && Linked(c, ram, bs) && Sane(c, ram) && i + 1 < |bs| && !bs[i + 1].used
    ensures 0 <= bs[i].addr < bs[i].end == bs[i + 1].addr < bs[i + 1].end <= c.memSize && Tiled(c, Join(bs, i))
    ensures var ram' := JoinWrites(c, ram, bs[i].addr, bs[i + 1].end); Linked(c, ram', Join(bs, i)) && Sane(c, ram')
  {
    var a, e := bs[i].addr, bs[i + 1].end;
    assert BlockOk(c, bs[i]) && BlockOk(c, bs[i + 1]) && bs[i].end == bs[i + 1].addr;
    JoinRewritten(c, ram, bs, i);
    LinkedSplice(c, ram, JoinWrites(c, ram, a, e), bs, i, i + 2, [Block(a, e, bs[i].used)]);
    JoinSane(c, ram, a, e);
    JoinTiled(c, bs, i);
  }

  /** Where plug_holes leaves lfree: it follows the header of a block that disappears. */
  function PlugLfree(bs: seq<Block>, i: nat, lfree: int): int
    requires i < |bs|
  {
    var l := if i + 1 < |bs| && !bs[i + 1].used && lfree == bs[i + 1].addr then bs[i].addr else lfree;
    if 0 < i && !bs[i - 1].used && l == bs[i].addr then bs[i - 1].addr else l
  }

  lemma {:induction false} JoinForwardShape(bs: seq<Block>, i: nat)
    requires i < |bs|
    ensures var r := JoinForward(bs, i);
      && i < |r| && r[i].addr == bs[i].addr && r[i].used == bs[i].used
      && forall m :: 0 <= m < i ==> r[m] == bs[m]
  {
  }

  /** Joining forwards, then backwards, is all that freeing takes. */
  lemma {:induction false} FreeByJoins(bs: seq<Block>, i: nat)
    requires i < |bs|
    ensures var r := JoinForward(Unmark(bs, i), i);
      i < |r| && JoinBackward(r, i) == FreeAt(bs, i)
  {
    var fwd, lo, hi := JoinForward(Unmark(bs, i), i), StretchStart(bs, i), StretchEnd(bs, i);
    JoinForwardOfUnmark(bs, i);
    if lo < i {
      assert fwd[i - 1] == bs[i - 1] && fwd[i].end == bs[hi - 1].end;
      assert fwd[..i - 1] == bs[..lo];
      assert fwd[i + 1..] == bs[hi..];
    }
  }

  lemma {:induction false} JoinForwardOfUnmark(bs: seq<Block>, i: nat)
    requires i < |bs|
    ensures var hi := StretchEnd(bs, i);
      JoinForward(Unmark(bs, i), i) == bs[..i] + [Block(bs[i].addr, bs[hi - 1].end, false)] + bs[hi..]
  {
    UnmarkShape(bs, i);
    var rel := Unmark(bs, i);
    if i + 1 < |bs| && !bs[i + 1].used {
      assert rel[..i] == bs[..i] && rel[i + 2..] == bs[i + 2..];
    }
  }

  /** Freeing block i can only lower lfree, to that block. */
  lemma {:induction false} LowestFreeAfterFree(c: Config, bs: seq<Block>, i: nat)
    requires ValidConfig(c) && Tiled(c, bs) && i < |bs| && bs[i].used
    ensures LowestFree(c, FreeAt(bs, i)) == if bs[i].addr < LowestFree(c, bs) then bs[i].addr else LowestFree(c, bs)
  {
    var ns, lo, k := FreeAt(bs, i), StretchStart(bs, i), LowestFreeIndex(c, bs);
    assert forall m :: 0 <= m < lo ==> ns[m] == bs[m];
    assert ns[lo].addr == bs[lo].addr && !ns[lo].used;
    assert BlockOk(c, bs[i]);
    if k < i {
      Ordered(c, bs, k, i);
      assert BlockOk(c, bs[k]);
      LowestFreeAt(c, ns, 0, k);
    } else {
      if k < |bs| { Ordered(c, bs, i, k); }
      LowestFreeAt(c, ns, 0, i);
    }
  }

  /** When a block has just been released, plug_holes has nothing to do for lfree. */
  lemma {:induction false} PlugLfreeIdle(c: Config, bs: seq<Block>, i: nat)
    requires ValidConfig(c) && Tiled(c, bs) && i < |bs| && bs[i].used
    ensures var l := if bs[i].addr < LowestFree(c, bs) then bs[i].addr else LowestFree(c, bs);
      PlugLfree(bs[i := bs[i].(used := false)], i, l) == l
  {
    var k := LowestFreeIndex(c, bs);
    assert BlockOk(c, bs[i]);
    if i + 1 < |bs| {
      Ordered(c, bs, i, i + 1);
    }
    if 0 < i && !bs[i - 1].used {
      assert k <= i - 1;
      Ordered(c, bs, k, i);
      assert BlockOk(c, bs[k]);
    }
  }

  /** What plug_holes makes of a block just released. */
  lemma {:induction false} Plugged(c: Config, bs: seq<Block>, i: nat, lfree: int)
    requires ValidConfig(c) && Tiled(c, bs) && i < |bs| && bs[i].used
    requires lfree == if bs[i].addr < LowestFree(c, bs) then bs[i].addr else LowestFree(c, bs)
    ensures var us := Unmark(bs, i);
      && i < |us| && us[i].addr == bs[i].addr && !us[i].used && PlugLfree(us, i, lfree) == lfree
      && us[StretchEnd(us, i) - 1].end == bs[StretchEnd(bs, i) - 1].end
      && i < |JoinForward(us, i)| && JoinBackward(JoinForward(us, i), i) == FreeAt(bs, i)
  {
    UnmarkShape(bs, i);
    PlugLfreeIdle(c, bs, i);
    FreeByJoins(bs, i);
  }

  /** Everything mem_free owes the next call, in one place. */
  lemma {:induction false} FreeSettles(c: Config, bs: seq<Block>, i: nat, lfree: int, used: int)
    requires Inv(c, bs) && Aligned(bs) && i < |bs| && bs[i].used
    requires lfree == if bs[i].addr < LowestFree(c, bs) then bs[i].addr else LowestFree(c, bs)
    requires used == UsedBytes(bs) - (bs[i].end - bs[i].addr)
    ensures Coalesced(FreeAt(bs, i)) && Aligned(FreeAt(bs, i))
    ensures lfree == LowestFree(c, FreeAt(bs, i)) && used == UsedBytes(FreeAt(bs, i))
  {
    LowestFreeAfterFree(c, bs, i);
    FreeEffect(c, bs, i);
    FreeAligned(bs, i);
    FreeKeepsInv(c, bs, i);
  }

  lemma {:induction false} TrimIsSplice(c: Config, bs: seq<Block>, i: nat, size: int, cut: int, next: int)
    requires Inv(c, bs) && i < |bs| && c.minSize <= size && CanTrim(c, bs, i, size)
    requires cut == bs[i].addr + c.headerSize + size && next == bs[StretchEnd(bs, i) - 1].end
    ensures 0 <= bs[i].addr < cut < next <= c.memSize
    ensures var ns := Splice(bs, i, StretchEnd(bs, i), [Block(bs[i].addr, cut, bs[i].used), Block(cut, next, false)]);
      ns == TrimAt(c, bs, i, size) && Tiled(c, ns)
  {
    TrimPiecesOk(c, bs, i, size);
    if bs[i].used { TrimKeepsInv(c, bs, i, size); } else { FreedTrimBreaks(c, bs, i, size); }
  }

  lemma {:induction false} TrimShape(c: Config, bs: seq<Block>, i: nat, size: int)
    requires i < |bs| && CanTrim(c, bs, i, size)
    ensures var ns := TrimAt(c, bs, i, size);
      && i + 1 < |ns| && (forall m :: 0 <= m < i ==> ns[m] == bs[m])
      && ns[i].used == bs[i].used && !ns[i + 1].used && ns[i + 1].addr == bs[i].addr + c.headerSize + size
  {
  }

  lemma {:induction false} LowestFreeAfterTrim(c: Config, bs: seq<Block>, i: nat, size: int)
    requires ValidConfig(c) && Tiled(c, bs) && i < |bs| && bs[i].used && CanTrim(c, bs, i, size) && c.minSize <= size
    ensures LowestFree(c, TrimAt(c, bs, i, size)) == TrimLfree(c, bs, i, size, LowestFree(c, bs))
  {
    var ns, k := TrimAt(c, bs, i, size), LowestFreeIndex(c, bs);
    TrimShape(c, bs, i, size);
    assert BlockOk(c, bs[i]);
    if k < i {
      LowestFreeAt(c, ns, 0, k);
      assert bs[k].end <= bs[i].addr by { Ordered(c, bs, k, i); }
      assert BlockOk(c, bs[k]);
      if i + 1 < |bs| { Ordered(c, bs, k, i + 1); }
    } else {
      assert forall m :: 0 <= m < i ==> ns[m].used;
      LowestFreeAt(c, ns, 0, i + 1);
      if k < |bs| { Ordered(c, bs, i, k); }
    }
  }

  /** On a chain: growth, and splitting the last block, although the code after that assertion copes. */
  predicate AssertsInTrim(c: Config, bs: seq<Block>, i: nat, size: int)
    requires i < |bs|
  {
    size > Room(c, bs[i]) || (i == |bs| - 1 && size + c.headerSize + c.minSize <= Room(c, bs[i]))
  }

  /** The assertion fires on a heap that is one used block, where cutting it keeps the invariant. */
  lemma {:induction false} TrimOfLastAsserts()
    ensures Run(SMALL, [Malloc(180)]) == [Block(0, 200, true)]
    ensures AssertsInTrim(SMALL, [Block(0, 200, true)], 0, 12)
    ensures Inv(SMALL, TrimAt(SMALL, [Block(0, 200, true)], 0, 12))
  {
    WholeHeap();
    TrimKeepsInv(SMALL, [Block(0, 200, true)], 0, 12);
  }

  /** Where mem_trim leaves lfree: a free successor moves down with it, a new tail may be lower. */
  function TrimLfree(c: Config, bs: seq<Block>, i: nat, size: int, lfree: int): int
    requires i < |bs|
  {
    var cut := bs[i].addr + c.headerSize + size;
    if i + 1 < |bs| && !bs[i + 1].used then (if lfree == bs[i + 1].addr then cut else lfree)
    else if cut < lfree then cut else lfree
  }

  /** Everything mem_trim owes the next call. */
  lemma {:induction false} TrimSettles(c: Config, bs: seq<Block>, i: nat, size: int, lfree: int, used: int)
    requires Inv(c, bs) && Aligned(bs) && AlignedConfig(c) && i < |bs| && bs[i].used && CanTrim(c, bs, i, size)
    requires c.minSize <= size && size % 4 == 0
    requires lfree == TrimLfree(c, bs, i, size, LowestFree(c, bs))
    requires used == UsedBytes(bs) - (Room(c, bs[i]) - size)
    ensures Coalesced(TrimAt(c, bs, i, size)) && Aligned(TrimAt(c, bs, i, size))
    ensures lfree == LowestFree(c, TrimAt(c, bs, i, size)) && used == UsedBytes(TrimAt(c, bs, i, size))
  {
    TrimKeepsInv(c, bs, i, size);
    TrimAligned(c, bs, i, size);
    TrimEffect(c, bs, i, size);
    LowestFreeAfterTrim(c, bs, i, size);
  }

  lemma {:induction false} MallocFreeIs(c: Config, bs: seq<Block>, n: nat)
    requires Inv(c, bs) && AlignedConfig(c) && n < c.modulus
    ensures var p, ns := MallocResult(c, bs, n), MallocStep(c, bs, n);
      if p == None then ns == bs else Owner(c, ns, p.value, 0) < |ns| && FreeStep(c, ns, p.value) == bs
  {
    if MallocResult(c, bs, n).Some? {
      var size := RequestSize(c, n).value;
      var i := FirstFit(c, bs, size, 0);
      RequestSizeExact(c, n);
      MallocFreeRestores(c, bs, n, size, i);
      AllocAtFront(c, bs, i, size);
      AllocKeepsInv(c, bs, i, size);
      OwnerIs(c, AllocAt(c, bs, i, size), i);
    }
  }

  // ----- mem_trim on memory -----

  /** The header at ptr was written at some time: mem_malloc returned the data area behind it, or could have. */
  predicate Written(c: Config, ram: seq<Header>, ptr: int)
    requires |ram| == c.memSize + 1
  {
    0 <= ptr < c.memSize && ram[ptr].next != 0
  }

  function SizeAt(c: Config, ram: seq<Header>, ptr: int): int
    requires |ram| == c.memSize + 1 && 0 <= ptr < c.memSize
  {
    ram[ptr].next - ptr - c.headerSize
  }

  /** mem_trim to size data bytes cuts something off. */
  predicate Cuts(c: Config, ram: seq<Header>, ptr: int, size: int)
    requires |ram| == c.memSize + 1 && 0 <= ptr < c.memSize
  {
    && 0 <= ram[ptr].next <= c.memSize && size < SizeAt(c, ram, ptr)
    && (!ram[ram[ptr].next].used || size + c.headerSize + c.minSize <= SizeAt(c, ram, ptr))
  }

  /** The end of the free block that mem_trim makes. */
  function CutEnd(c: Config, ram: seq<Header>, ptr: int): int
    requires |ram| == c.memSize + 1 && 0 <= ptr < c.memSize && 0 <= ram[ptr].next <= c.memSize
  {
    if ram[ram[ptr].next].used then ram[ptr].next else ram[ram[ptr].next].next
  }

  function TrimLfreeAt(c: Config, ram: seq<Header>, ptr: int, size: int, lfree: int): int
    requires |ram| == c.memSize + 1 && 0 <= ptr < c.memSize && 0 <= ram[ptr].next <= c.memSize
  {
    var cut := ptr + c.headerSize + size;
    if !ram[ram[ptr].next].used then if lfree == ram[ptr].next then cut else lfree
    else if cut < lfree then cut else lfree
  }

  /** Memory after mem_trim through a header that has something to cut. */
  ghost predicate Trimmed(c: Config, ram: seq<Header>, ptr: int, size: int, ram': seq<Header>)
    requires |ram| == c.memSize + 1 && 0 <= ptr < c.memSize && 0 <= ram[ptr].next <= c.memSize
  {
    var cut, e := ptr + c.headerSize + size, CutEnd(c, ram, ptr);
    ptr < cut <= c.memSize && 0 <= e <= c.memSize && ram' == SplitWrites(c, ram, ptr, cut, e, ram[ptr].used)
  }

  /** Only headers off the chain, or with a link back to one of them, say anything new. */
  ghost predicate ChangedAside(c: Config, ram: seq<Header>, ram': seq<Header>, ptr: int)
    requires |ram| == c.memSize + 1 && |ram'| == c.memSize + 1
  {
    forall a :: 0 <= a < c.memSize && a != ptr && (ram'[a].next != ram[a].next || ram'[a].used != ram[a].used) ==>
      a != 0 && ram'[a].prev == ptr
  }

  /** Then a chain that memory spells out is the old one, block by block. */
  lemma {:induction false} SameChainAt(c: Config, ram: seq<Header>, ram': seq<Header>, bs: seq<Block>, ns: seq<Block>,
                                       ptr: int, k: nat)
    requires ValidConfig(c) && Tiled(c, bs) && Linked(c, ram, bs) && Tiled(c, ns) && Linked(c, ram', ns)
    requires !IsHead(bs, ptr) && ChangedAside(c, ram, ram', ptr) && k < |ns|
    ensures k < |bs| && ns[k] == bs[k]
  {
    assert BlockOk(c, ns[k]) && Says(ram'[ns[k].addr], ns[k]);
    if 0 < k {
      SameChainAt(c, ram, ram', bs, ns, ptr, k - 1);
      assert ns[k - 1].end == ns[k].addr && LinkedBack(ram', ns, k);
      assert IsHead(bs, bs[k - 1].addr);
    }
    assert BlockOk(c, bs[k]) && Says(ram[bs[k].addr], bs[k]);
    assert IsHead(bs, bs[k].addr);
  }

  lemma {:induction false} SameChain(c: Config, ram: seq<Header>, ram': seq<Header>, bs: seq<Block>, ns: seq<Block>,
                                     ptr: int)
    requires ValidConfig(c) && Tiled(c, bs) && Linked(c, ram, bs) && Tiled(c, ns) && Linked(c, ram', ns)
    requires !IsHead(bs, ptr) && ChangedAside(c, ram, ram', ptr)
    ensures ns == bs
  {
    forall k | 0 <= k < |ns| ensures k < |bs| && ns[k] == bs[k] { SameChainAt(c, ram, ram', bs, ns, ptr, k); }
    SameChainAt(c, ram, ram', bs, ns, ptr, |ns| - 1);
    LastEnds(c, bs, |ns| - 1);
  }

  /** Only the last block ends at ram_end. */
  lemma {:induction false} LastEnds(c: Config, bs: seq<Block>, i: nat)
    requires ValidConfig(c) && Tiled(c, bs) && i < |bs|
    ensures bs[i].end == c.memSize <==> i == |bs| - 1
  {
    if i + 1 < |bs| { assert BlockOk(c, bs[i + 1]) && bs[i].end == bs[i + 1].addr; }
  }

  /** Memory spells out one chain only. */
  lemma {:induction false} ChainUnique(c: Config, ram: seq<Header>, bs: seq<Block>, ns: seq<Block>)
    requires ValidConfig(c) && Tiled(c, bs) && Linked(c, ram, bs) && Tiled(c, ns) && Linked(c, ram, ns)
    ensures ns == bs
  {
    assert !IsHead(bs, -1) by {
      forall i | 0 <= i < |bs| ensures bs[i].addr != -1 { assert BlockOk(c, bs[i]); }
    }
    SameChain(c, ram, ram, bs, ns, -1);
  }

  /** The heap is as it has to be between calls, with this chain. */
  ghost predicate Settled(c: Config, ram: seq<Header>, lfree: int, used: int, bs: seq<Block>) {
    && ValidConfig(c) && Tiled(c, bs) && Linked(c, ram, bs) && Coalesced(bs) && Aligned(bs)
    && lfree == LowestFree(c, bs) && used == UsedBytes(bs)
  }

  /** Cutting through a header that has left the chain leaves no chain that is right. */
  lemma {:induction false} StaleCutBreaks(c: Config, ram: seq<Header>, bs: seq<Block>, ptr: int, size: int,
                                          ram': seq<Header>, lfree: int, ns: seq<Block>)
    requires ValidConfig(c) && Tiled(c, bs) && Linked(c, ram, bs) && Sane(c, ram)
    requires Written(c, ram, ptr) && !IsHead(bs, ptr) && c.minSize <= size && Cuts(c, ram, ptr, size)
    requires Trimmed(c, ram, ptr, size, ram')
    ensures !Settled(c, ram', lfree, UsedBytes(bs) - (SizeAt(c, ram, ptr) - size), ns)
  {
    if Tiled(c, ns) && Linked(c, ram', ns) {
      assert ChangedAside(c, ram, ram', ptr) by { StaleAside(c, ram, ptr, size, ram'); }
      SameChain(c, ram, ram', bs, ns, ptr);
    }
  }

  lemma {:induction false} StaleAside(c: Config, ram: seq<Header>, ptr: int, size: int, ram': seq<Header>)
    requires ValidConfig(c) && Sane(c, ram) && Written(c, ram, ptr) && c.minSize <= size && Cuts(c, ram, ptr, size)
    requires Trimmed(c, ram, ptr, size, ram') && ram[c.memSize].next == c.memSize
    ensures |ram'| == |ram| && ChangedAside(c, ram, ram', ptr)
  {
    var cut, next := ptr + c.headerSize + size, ram[ptr].next;
    assert HeaderSane(c, ptr, ram[ptr]);
    if next < c.memSize { assert HeaderSane(c, next, ram[next]); }
    assert CutEnd(c, ram, ptr) != cut;
  }

  /** Cutting a free block of the chain does too. */
  lemma {:induction false} FreedCutBreaks(c: Config, ram': seq<Header>, bs: seq<Block>, i: nat, size: int, lfree: int,
                                          used: int, ns: seq<Block>)
    requires Inv(c, bs) && i < |bs| && !bs[i].used && c.minSize <= size && CanTrim(c, bs, i, size)
    requires Linked(c, ram', TrimAt(c, bs, i, size))
    ensures !Settled(c, ram', lfree, used, ns)
  {
    FreedTrimBreaks(c, bs, i, size);
    if Settled(c, ram', lfree, used, ns) { ChainUnique(c, ram', TrimAt(c, bs, i, size), ns); }
  }

  lemma {:induction false} CutLinked(c: Config, ram: seq<Header>, bs: seq<Block>, i: nat, j: nat, cut: int, mark: bool,
                                     ns: seq<Block>)
    requires ValidConfig(c) && Tiled(c, bs) && Linked(c, ram, bs) && Sane(c, ram) && i < j <= |bs|
    requires forall k :: i < k < j ==> !bs[k].used
    requires 0 <= bs[i].addr < cut < bs[j - 1].end <= c.memSize && Tiled(c, ns)
    requires ns == Splice(bs, i, j, [Block(bs[i].addr, cut, mark), Block(cut, bs[j - 1].end, false)])
    ensures Linked(c, SplitWrites(c, ram, bs[i].addr, cut, bs[j - 1].end, mark), ns)
    ensures Sane(c, SplitWrites(c, ram, bs[i].addr, cut, bs[j - 1].end, mark))
  {
    SplitLinked(c, ram, bs, i, j, cut, mark);
    PiecesSane(c, ram, bs, i, j, Block(bs[i].addr, cut, mark), Block(cut, bs[j - 1].end, false));
  }

  /** mem_trim would cut something off that nobody owns: a free block, or what a header off the chain once headed. */
  ghost predicate CutsDead(c: Config, ram: seq<Header>, bs: seq<Block>, ptr: int, size: int)
    requires |ram| == c.memSize + 1 && 0 <= ptr < c.memSize
  {
    Cuts(c, ram, ptr, size) && Owner(c, bs, ptr + c.headerSize, 0) == |bs|
  }

  /** mem_trim asserts on growth, and on splitting a block that ends the heap. */
  predicate TrimAsserts(c: Config, ram: seq<Header>, ptr: int, size: int)
    requires |ram| == c.memSize + 1 && 0 <= ptr < c.memSize
  {
    SizeAt(c, ram, ptr) < size || (Cuts(c, ram, ptr, size) && ram[ptr].next == c.memSize)
  }

  /** The whole call would: its size is legal, its pointer in the heap. */
  ghost predicate TrimsDead(c: Config, ram: seq<Header>, bs: seq<Block>, p: int, n: nat)
    requires ValidConfig(c) && |ram| == c.memSize + 1 && (Outside(c, p) || 0 <= p - c.headerSize < c.memSize)
  {
    RequestSize(c, n).Some? && !Outside(c, p) && CutsDead(c, ram, bs, p - c.headerSize, RequestSize(c, n).value)
  }

  /** The chain that mem_trim leaves. */
  function ChainAfter(c: Config, bs: seq<Block>, ptr: int, size: int): seq<Block> {
    var i := Named(c, bs, ptr + c.headerSize, 0);
    if i == |bs| then bs else TrimAt(c, bs, i, size)
  }

  lemma {:induction false} TrimStepIs(c: Config, bs: seq<Block>, p: int, n: nat, size: int)
    requires ValidConfig(c) && RequestSize(c, n) == Some(size) && !Outside(c, p)
    ensures TrimStep(c, bs, p, n) == ChainAfter(c, bs, p - c.headerSize, size)
  {
  }

  /** If p is the pointer to a used block of bs, that block is trimmed as far as it can be. */
  ghost predicate OwnedTrimmed(c: Config, bs: seq<Block>, ns: seq<Block>, p: int, size: int) {
    var i := Owner(c, bs, p, 0);
    i < |bs| && size <= Room(c, bs[i]) ==> TrimmedTo(c, bs, ns, i, size)
  }

  lemma {:induction false} TrimFits(c: Config, bs: seq<Block>, p: int, n: nat)
    requires Inv(c, bs) && AlignedConfig(c) && n < c.modulus && RequestSize(c, n).Some? && !Outside(c, p)
    ensures OwnedTrimmed(c, bs, TrimStep(c, bs, p, n), p, RequestSize(c, n).value)
  {
    var i := Owner(c, bs, p, 0);
    if i < |bs| && RequestSize(c, n).value <= Room(c, bs[i]) { TrimGives(c, bs, p, n); }
  }

  lemma {:induction false} OwnerNamed(c: Config, bs: seq<Block>, p: int)
    requires ValidConfig(c) && Tiled(c, bs)
    ensures var i := Named(c, bs, p, 0); Owner(c, bs, p, 0) == |bs| <==> i == |bs| || !bs[i].used
  {
    var i, k := Named(c, bs, p, 0), Owner(c, bs, p, 0);
    if k < |bs| && i < |bs| && i != k { AddrUnique(c, bs, i, k); }
  }

  lemma {:induction false} HeadLinked(c: Config, ram: seq<Header>, bs: seq<Block>, i: nat, j: nat, cut: int, size: int,
                                      ram': seq<Header>)
    requires Inv(c, bs) && Linked(c, ram, bs) && Sane(c, ram) && i < |bs| && 0 <= bs[i].addr < c.memSize
    requires c.minSize <= size && CanTrim(c, bs, i, size) && j == StretchEnd(bs, i)
    requires cut == bs[i].addr + c.headerSize + size && cut <= c.memSize && 0 <= bs[j - 1].end <= c.memSize
    requires ram' == SplitWrites(c, ram, bs[i].addr, cut, bs[j - 1].end, bs[i].used)
    ensures Tiled(c, TrimAt(c, bs, i, size)) && Linked(c, ram', TrimAt(c, bs, i, size)) && Sane(c, ram')
  {
    TrimIsSplice(c, bs, i, size, cut, bs[j - 1].end);
    CutLinked(c, ram, bs, i, j, cut, bs[i].used, TrimAt(c, bs, i, size));
  }

  /** What mem_trim looks at, for a header of the chain. */
  lemma {:induction false} HeadCuts(c: Config, ram: seq<Header>, bs: seq<Block>, i: nat, size: int, lfree: int)
    requires ValidConfig(c) && Tiled(c, bs) && Linked(c, ram, bs) && i < |bs| && c.minSize <= size
    ensures var ptr := bs[i].addr;
      && Written(c, ram, ptr) && SizeAt(c, ram, ptr) == Room(c, bs[i]) && Says(ram[ptr], bs[i])
      && 0 <= bs[i].end <= c.memSize && CutEnd(c, ram, ptr) == bs[StretchEnd(bs, i) - 1].end
      && (Cuts(c, ram, ptr, size) <==> CanTrim(c, bs, i, size))
      && (ram[ptr].next == c.memSize <==> i == |bs| - 1)
      && (CanTrim(c, bs, i, size) ==> TrimLfreeAt(c, ram, ptr, size, lfree) == TrimLfree(c, bs, i, size, lfree))
  {
    assert BlockOk(c, bs[i]) && Says(ram[bs[i].addr], bs[i]);
    LastEnds(c, bs, i);
    if i + 1 < |bs| {
      assert bs[i].end == bs[i + 1].addr && Says(ram[bs[i + 1].addr], bs[i + 1]);
    }
  }

  /** The writes of mem_trim, through a header of the chain. */
  lemma {:induction false} HeadWay(c: Config, ram: seq<Header>, bs: seq<Block>, ptr: int, size: int, ram': seq<Header>,
                                   i: nat)
    requires Inv(c, bs) && Linked(c, ram, bs) && Sane(c, ram) && Written(c, ram, ptr)
    requires c.minSize <= size && 0 <= ram[ptr].next <= c.memSize && Cuts(c, ram, ptr, size)
    requires i < |bs| && bs[i].addr == ptr && Trimmed(c, ram, ptr, size, ram')
    ensures Tiled(c, TrimAt(c, bs, i, size)) && Linked(c, ram', TrimAt(c, bs, i, size)) && Sane(c, ram')
  {
    HeadCuts(c, ram, bs, i, size, 0);
    HeadLinked(c, ram, bs, i, StretchEnd(bs, i), ptr + c.headerSize + size, size, ram');
  }

  /** A used block leaves the heap in order. */
  lemma {:induction false} UsedCutKeeps(c: Config, ram: seq<Header>, bs: seq<Block>, ptr: int, size: int, lfree: int,
                                        used: int, ram': seq<Header>, i: nat)
    requires AlignedConfig(c) && Settled(c, ram, lfree, used, bs) && Sane(c, ram) && Written(c, ram, ptr)
    requires c.minSize <= size && size % 4 == 0 && 0 <= ram[ptr].next <= c.memSize && Cuts(c, ram, ptr, size)
    requires i < |bs| && bs[i].addr == ptr && bs[i].used && Trimmed(c, ram, ptr, size, ram')
    ensures Settled(c, ram', TrimLfreeAt(c, ram, ptr, size, lfree), used - (SizeAt(c, ram, ptr) - size),
                    TrimAt(c, bs, i, size))
    ensures Sane(c, ram')
  {
    HeadCuts(c, ram, bs, i, size, lfree);
    TrimSettles(c, bs, i, size, TrimLfree(c, bs, i, size, lfree), used - (Room(c, bs[i]) - size));
    HeadWay(c, ram, bs, ptr, size, ram', i);
  }

  /** A free one does not, whatever the chain. */
  lemma {:induction false} FreeCutBreaks(c: Config, ram: seq<Header>, bs: seq<Block>, ptr: int, size: int,
                                         ram': seq<Header>, i: nat, lfree: int, used: int, ns: seq<Block>)
    requires Inv(c, bs) && Linked(c, ram, bs) && Sane(c, ram) && Written(c, ram, ptr)
    requires c.minSize <= size && 0 <= ram[ptr].next <= c.memSize && Cuts(c, ram, ptr, size)
    requires i < |bs| && bs[i].addr == ptr && !bs[i].used && Trimmed(c, ram, ptr, size, ram')
    ensures !Settled(c, ram', lfree, used, ns)
  {
    HeadCuts(c, ram, bs, i, size, lfree);
    HeadWay(c, ram, bs, ptr, size, ram', i);
    FreedCutBreaks(c, ram', bs, i, size, lfree, used, ns);
  }

  lemma {:induction false} DeadCutBreaks(c: Config, ram: seq<Header>, bs: seq<Block>, ptr: int, size: int,
                                         ram': seq<Header>, lfree: int, used: int, ns: seq<Block>)
    requires Inv(c, bs) && Linked(c, ram, bs) && Sane(c, ram) && Written(c, ram, ptr)
    requires c.minSize <= size && 0 <= ram[ptr].next <= c.memSize && CutsDead(c, ram, bs, ptr, size)
    requires Trimmed(c, ram, ptr, size, ram') && used == UsedBytes(bs) - (SizeAt(c, ram, ptr) - size)
    ensures !Settled(c, ram', lfree, used, ns)
  {
    var i := Named(c, bs, ptr + c.headerSize, 0);
    OwnerNamed(c, bs, ptr + c.headerSize);
    if i < |bs| {
      FreeCutBreaks(c, ram, bs, ptr, size, ram', i, lfree, used, ns);
    } else {
      assert !IsHead(bs, ptr);
      StaleCutBreaks(c, ram, bs, ptr, size, ram', lfree, ns);
    }
  }

  lemma {:induction false} NothingCut(c: Config, ram: seq<Header>, bs: seq<Block>, ptr: int, size: int)
    requires ValidConfig(c) && Tiled(c, bs) && Linked(c, ram, bs) && Written(c, ram, ptr) && c.minSize <= size
    requires !Cuts(c, ram, ptr, size)
    ensures ChainAfter(c, bs, ptr, size) == bs
  {
    var i := Named(c, bs, ptr + c.headerSize, 0);
    if i < |bs| { HeadCuts(c, ram, bs, i, size, 0); }
  }

  /** Memory, lfree and the statistic after mem_trim to size bytes through the header at ptr. */
  ghost predicate TrimEffects(c: Config, ram: seq<Header>, ptr: int, size: int, lfree: int, used: int,
                              ram': seq<Header>, lfree': int, used': int)
    requires |ram| == c.memSize + 1 && 0 <= ptr < c.memSize && 0 <= ram[ptr].next <= c.memSize
  {
    if Cuts(c, ram, ptr, size)
    then && Trimmed(c, ram, ptr, size, ram') && lfree' == TrimLfreeAt(c, ram, ptr, size, lfree)
         && used' == used - (SizeAt(c, ram, ptr) - size)
    else ram' == ram && lfree' == lfree && used' == used
  }

  lemma {:induction false} LiveCutKeeps(c: Config, ram: seq<Header>, bs: seq<Block>, ptr: int, size: int, lfree: int,
                                        used: int, ram': seq<Header>, lfree': int, used': int, i: nat)
    requires AlignedConfig(c) && Settled(c, ram, lfree, used, bs) && Sane(c, ram) && Written(c, ram, ptr)
    requires c.minSize <= size && size % 4 == 0 && 0 <= ram[ptr].next <= c.memSize && Cuts(c, ram, ptr, size)
    requires TrimEffects(c, ram, ptr, size, lfree, used, ram', lfree', used')
    requires i < |bs| && bs[i].used && bs[i].addr == ptr
    ensures Settled(c, ram', lfree', used', TrimAt(c, bs, i, size)) && Sane(c, ram')
  {
    UsedCutKeeps(c, ram, bs, ptr, size, lfree, used, ram', i);
  }

  lemma {:induction false} OwnerIsNamed(c: Config, bs: seq<Block>, p: int)
    requires ValidConfig(c) && Tiled(c, bs) && Owner(c, bs, p, 0) < |bs|
    ensures Named(c, bs, p, 0) == Owner(c, bs, p, 0)
  {
    var i, k := Owner(c, bs, p, 0), Named(c, bs, p, 0);
    if i != k { AddrUnique(c, bs, i, k); }
  }

  lemma {:induction false} ChainAfterIs(c: Config, bs: seq<Block>, ptr: int, size: int)
    requires ValidConfig(c) && Tiled(c, bs) && Owner(c, bs, ptr + c.headerSize, 0) < |bs|
    ensures ChainAfter(c, bs, ptr, size) == TrimAt(c, bs, Owner(c, bs, ptr + c.headerSize, 0), size)
  {
    OwnerIsNamed(c, bs, ptr + c.headerSize);
  }

  /** Unless it cut something that nobody owns, the heap is in order. */
  lemma {:induction false} TrimKeeps(c: Config, ram: seq<Header>, bs: seq<Block>, ptr: int, size: int, lfree: int,
                                     used: int, ram': seq<Header>, lfree': int, used': int)
    requires AlignedConfig(c) && Settled(c, ram, lfree, used, bs) && Sane(c, ram) && Written(c, ram, ptr)
    requires c.minSize <= size && size % 4 == 0 && 0 <= ram[ptr].next <= c.memSize
    requires TrimEffects(c, ram, ptr, size, lfree, used, ram', lfree', used') && !CutsDead(c, ram, bs, ptr, size)
    ensures Settled(c, ram', lfree', used', ChainAfter(c, bs, ptr, size)) && Sane(c, ram')
  {
    if Cuts(c, ram, ptr, size) {
      ChainAfterIs(c, bs, ptr, size);
      LiveCutKeeps(c, ram, bs, ptr, size, lfree, used, ram', lfree', used', Owner(c, bs, ptr + c.headerSize, 0));
    } else {
      NothingCut(c, ram, bs, ptr, size);
    }
  }

  /** Through a header of the chain, memory spells out a chain in any case. */
  lemma {:induction false} TrimChains(c: Config, ram: seq<Header>, bs: seq<Block>, ptr: int, size: int, lfree: int,
                                      used: int, ram': seq<Header>, lfree': int, used': int, i: nat)
    requires Inv(c, bs) && Linked(c, ram, bs) && Sane(c, ram) && Written(c, ram, ptr)
    requires c.minSize <= size && 0 <= ram[ptr].next <= c.memSize && i < |bs| && bs[i].addr == ptr
    requires TrimEffects(c, ram, ptr, size, lfree, used, ram', lfree', used')
    ensures Tiled(c, TrimAt(c, bs, i, size)) && Linked(c, ram', TrimAt(c, bs, i, size)) && Sane(c, ram')
  {
    if Cuts(c, ram, ptr, size) {
      HeadWay(c, ram, bs, ptr, size, ram', i);
    } else {
      HeadCuts(c, ram, bs, i, size, 0);
      assert TrimAt(c, bs, i, size) == bs;
    }
  }

  lemma {:induction false} TrimBreaks(c: Config, ram: seq<Header>, bs: seq<Block>, ptr: int, size: int, lfree: int,
                                      used: int, ram': seq<Header>, lfree': int, used': int)
    requires Settled(c, ram, lfree, used, bs) && Sane(c, ram) && Written(c, ram, ptr)
    requires c.minSize <= size && 0 <= ram[ptr].next <= c.memSize && CutsDead(c, ram, bs, ptr, size)
    requires TrimEffects(c, ram, ptr, size, lfree, used, ram', lfree', used')
    ensures forall ns :: !Settled(c, ram', lfree', used', ns)
  {
    forall ns ensures !Settled(c, ram', lfree', used', ns) {
      DeadCutBreaks(c, ram, bs, ptr, size, ram', lfree', used', ns);
    }
  }

  /** The chain and the statistic after block i was taken, split or whole. */
  lemma {:induction false} TakeIs(c: Config, bs: seq<Block>, i: nat, size: int)
    requires Inv(c, bs) && i < |bs| && Fits(c, bs[i], size) && c.minSize <= size
    ensures var a, e, cut, ns := bs[i].addr, bs[i].end, bs[i].addr + c.headerSize + size, AllocAt(c, bs, i, size);
      && 0 <= a && e <= c.memSize && Tiled(c, ns)
      && if size + c.headerSize + c.minSize <= Room(c, bs[i])
         then && a < cut < e && ns == Splice(bs, i, i + 1, [Block(a, cut, true), Block(cut, e, false)])
              && UsedBytes(ns) == UsedBytes(bs) + c.headerSize + size
         else ns == Splice(bs, i, i + 1, [bs[i].(used := true)]) && UsedBytes(ns) == UsedBytes(bs) + e - a
  {
    assert BlockOk(c, bs[i]);
    AllocKeepsInv(c, bs, i, size);
    AllocEffect(c, bs, i, size);
  }

  class Heap {
    const c: Config
    const ram: array<Header>
    var lfree: int
    var used: int
    var err: nat
    var illegal: nat
    ghost var blocks: seq<Block>

    /** Memory spells out a tiling chain. */
    ghost predicate Chained()
      reads this, ram
    {
      && ValidConfig(c) && AlignedConfig(c) && Tiled(c, blocks)
      && Linked(c, ram[..], blocks) && Sane(c, ram[..])
    }

    /** Between calls: also coalesced, aligned, lfree exact and the statistic exact. */
    ghost predicate Valid()
      reads this, ram
    {
      && Chained() && Coalesced(blocks) && Aligned(blocks)
      && lfree == LowestFree(c, blocks) && used == UsedBytes(blocks)
    }

    /** mem_init */
    constructor (c: Config)
      requires ValidConfig(c) && AlignedConfig(c)
      ensures Valid() && this.c == c && fresh(ram)
      ensures blocks == Initial(c) && err == 0 && illegal == 0
    {
      this.c := c;
      ram := new Header[c.memSize + 1](_ => Header(0, 0, false));
      lfree := 0;
      used, err, illegal := 0, 0, 0;
      blocks := Initial(c);
      new;
      ram[0] := Header(c.memSize, 0, false);
      ram[c.memSize] := Header(c.memSize, c.memSize, true);
      NoneUsed(blocks, 0, 1);
    }

    /**
     The header writes that end block i at ptr2 and make a free block of what follows up to next:
     mem_malloc splits one block this way, and marks it used; mem_trim one or two, and leaves the mark as it is.
     */
    method WriteSplit(ptr: int, ptr2: int, next: int, mark: bool, ghost i: nat, ghost j: nat)
      requires Chained() && i < j <= |blocks| && blocks[i].addr == ptr && blocks[j - 1].end == next
      requires 0 <= ptr < ptr2 < next <= c.memSize && forall k :: i < k < j ==> !blocks[k].used
      requires Tiled(c, Splice(blocks, i, j, [Block(ptr, ptr2, mark), Block(ptr2, next, false)]))
      modifies this`blocks, ram
      ensures Chained() && blocks == Splice(old(blocks), i, j, [Block(ptr, ptr2, mark), Block(ptr2, next, false)])
    {
      ghost var bs, before := blocks, ram[..];
      WriteHeaders(ptr, ptr2, next, mark);
      SplitLinked(c, before, bs, i, j, ptr2, mark);
      PiecesSane(c, before, bs, i, j, Block(ptr, ptr2, mark), Block(ptr2, next, false));
      blocks := Splice(bs, i, j, [Block(ptr, ptr2, mark), Block(ptr2, next, false)]);
    }

    method WriteHeaders(ptr: int, ptr2: int, next: int, mark: bool)
      requires ram.Length == c.memSize + 1 && 0 <= ptr < ptr2 <= c.memSize && 0 <= next <= c.memSize
      modifies ram
      ensures ram[..] == SplitWrites(c, old(ram[..]), ptr, ptr2, next, mark)
    {
      ram[ptr2] := Header(next, ptr, false);
      ram[ptr] := ram[ptr].(next := ptr2, used := mark);
      if next != c.memSize {
        ram[next] := ram[next].(prev := ptr2);
      }
    }

    method WriteUsed(ptr: int, value: bool, ghost i: nat)
      requires Chained() && i < |blocks| && blocks[i].addr == ptr
      modifies this`blocks, ram
      ensures Chained() && blocks == Splice(old(blocks), i, i + 1, [old(blocks)[i].(used := value)])
    {
      ghost var bs, before := blocks, ram[..];
      ram[ptr] := ram[ptr].(used := value);
      assert ram[..] == before[ptr := before[ptr].(used := value)];
      FlagLinked(c, before, bs, i, value);
      blocks := Splice(bs, i, i + 1, [bs[i].(used := value)]);
      assert BlockOk(c, bs[i]);
      SpliceTiled(c, bs, i, i + 1, [bs[i].(used := value)]);
    }

    /** The body of mem_malloc's scan once block ptr has been found to fit. */
    method Take(ptr: int, size: int, ghost i: nat)
      requires Chained() && Coalesced(blocks)
      requires i < |blocks| && blocks[i].addr == ptr && Fits(c, blocks[i], size) && c.minSize <= size
      modifies this`used, this`blocks, ram
      ensures Chained() && blocks == AllocAt(c, old(blocks), i, size)
      ensures used == old(used) + UsedBytes(blocks) - UsedBytes(old(blocks))
    {
      NextIs(i);
      TakeIs(c, blocks, i, size);
      var next := ram[ptr].next;
      if next - (ptr + c.headerSize) >= size + c.headerSize + c.minSize {
        WriteSplit(ptr, ptr + c.headerSize + size, next, true, i, i + 1);
        used := used + size + c.headerSize;
      } else {
        WriteUsed(ptr, true, i);
        used := used + (next - ptr);
      }
    }

    /** Offset of block k, or of ram_end past the last one. */
    ghost function AddrAt(k: nat): int
      requires k <= |blocks|
      reads this
    {
      if k < |blocks| then blocks[k].addr else c.memSize
    }

    /** Following next from block k leads to block k + 1. */
    lemma {:induction false} NextIs(k: nat)
      requires Chained() && k < |blocks|
      ensures 0 <= blocks[k].addr < c.memSize && Says(ram[blocks[k].addr], blocks[k])
      ensures ram[blocks[k].addr].next == AddrAt(k + 1)
    {
      assert Says(ram[..][blocks[k].addr], blocks[k]);
    }

    /** mem_malloc's search: from lfree upwards, giving up at MEM_SIZE_ALIGNED - size. */
    method Scan(size: int) returns (ptr: int, found: bool)
      requires Valid() && 0 < size <= c.memSize
      ensures found ==> FirstFit(c, blocks, size, 0) < |blocks| && ptr == blocks[FirstFit(c, blocks, size, 0)].addr
      ensures !found ==> FirstFit(c, blocks, size, 0) == |blocks|
    {
      ghost var k := LowestFreeIndex(c, blocks);
      ptr := lfree;
      while ptr < c.memSize - size
        invariant 0 <= k <= |blocks| && ptr == AddrAt(k)
        invariant forall m :: 0 <= m < k ==> !Fits(c, blocks[m], size)
        decreases |blocks| - k
      {
        NextIs(k);
        if !ram[ptr].used && ram[ptr].next - (ptr + c.headerSize) >= size {
          return ptr, true;
        }
        ptr := ram[ptr].next;
        k := k + 1;
      }
      NoneFitsAbove(c, blocks, k, size);
      found := false;
    }

    /** The walk that finds the next free block at or after cur. */
    method NextFree(from: int, ghost k: nat) returns (cur: int)
      requires Chained() && k < |blocks| && from == blocks[k].addr
      ensures cur == LowestFreeFrom(c, blocks, k)
    {
      cur := from;
      ghost var j := k;
      while cur != c.memSize && ram[cur].used
        invariant k <= j <= |blocks| && cur == AddrAt(j)
        invariant forall m :: k <= m < j ==> blocks[m].used
        decreases |blocks| - j
      {
        NextIs(j);
        cur := ram[cur].next;
        j := j + 1;
      }
      if j < |blocks| { NextIs(j); }
      LowestFreeAt(c, blocks, k, j);
    }

    /** The lfree update that follows. */
    method Allocate(ptr: int, size: int, ghost i: nat)
      requires Valid() && c.minSize <= size && size % 4 == 0
      requires i < |blocks| && blocks[i].addr == ptr && Fits(c, blocks[i], size)
      modifies this`lfree, this`used, this`blocks, ram
      ensures Valid() && blocks == AllocAt(c, old(blocks), i, size)
    {
      ghost var bs := blocks;
      Take(ptr, size, i);
      LowestFreeAfterAlloc(c, bs, i, size);
      if ptr == lfree {
        lfree := NextFree(ptr, i);
      }
      assert Aligned(blocks) by { AllocAligned(c, bs, i, size); }
      assert Coalesced(blocks) by { AllocKeepsInv(c, bs, i, size); }
    }

    /** Size rounding shared by mem_malloc and mem_trim. */
    method Request(n: nat) returns (size: Option<int>)
      requires ValidConfig(c) && AlignedConfig(c) && n < c.modulus
      ensures size == RequestSize(c, n)
      ensures size.Some? ==> c.minSize <= size.value <= c.memSize && size.value % 4 == 0
    {
      RequestSizeExact(c, n);
      var s := AlignSize(c, n);
      if s < c.minSize {
        s := c.minSize;
      }
      size := if s > c.memSize || s < n then None else Some(s);
    }

    /** The search and what follows it. */
    method Serve(size: int) returns (p: Option<int>)
      requires Valid() && c.minSize <= size <= c.memSize && size % 4 == 0
      modifies this`lfree, this`used, this`blocks, ram
      ensures Valid() && blocks == Served(c, old(blocks), size) && p == ServedAt(c, old(blocks), size)
    {
      var ptr, found := Scan(size);
      if !found {
        return None;
      }
      Allocate(ptr, size, FirstFit(c, blocks, size, 0));
      p := Some(ptr + c.headerSize);
    }

    /** mem_malloc */
    method Malloc(sizeIn: nat) returns (p: Option<int>)
      requires Valid() && sizeIn < c.modulus
      modifies this`lfree, this`used, this`err, this`blocks, ram
      ensures Valid() && blocks == MallocStep(c, old(blocks), sizeIn)
      ensures p == MallocResult(c, old(blocks), sizeIn)
      ensures err == old(err) + if sizeIn != 0 && RequestSize(c, sizeIn).Some? && p == None then 1 else 0
    {
      if sizeIn == 0 {
        return None;
      }
      var size := Request(sizeIn);
      if size == None {
        return None;
      }
      p := Serve(size.value);
      if p == None {
        err := err + 1;
      }
    }

    /** plug_holes, forward half */
    method PlugForward(mem: int, ghost i: nat)
      requires Chained() && i < |blocks| && blocks[i].addr == mem && !blocks[i].used
      modifies this`lfree, this`blocks, ram
      ensures Chained() && blocks == JoinForward(old(blocks), i)
      ensures ram[mem].next == old(blocks)[StretchEnd(old(blocks), i) - 1].end
      ensures lfree == if i + 1 < |old(blocks)| && !old(blocks)[i + 1].used && old(lfree) == old(blocks)[i + 1].addr
                       then mem else old(lfree)
    {
      NextIs(i);
      var nmem := ram[mem].next;
      if i + 1 < |blocks| { NextIs(i + 1); }
      if mem != nmem && !ram[nmem].used && nmem != c.memSize {
        if lfree == nmem {
          lfree := mem;
        }
        WriteJoin(mem, ram[nmem].next, i);
      }
    }

    /** The header of block i takes in the free block behind it. */
    method WriteJoin(mem: int, end: int, ghost i: nat)
      requires Chained() && i + 1 < |blocks| && !blocks[i + 1].used && blocks[i].addr == mem && blocks[i + 1].end == end
      modifies this`blocks, ram
      ensures Chained() && blocks == Join(old(blocks), i) && 0 <= mem < c.memSize && ram[mem].next == end
      ensures forall a :: 0 <= a < ram.Length && a != mem ==> ram[a].next == old(ram[a].next)
    {
      ghost var before := ram[..];
      JoinLinked(c, before, blocks, i);
      ram[mem] := ram[mem].(next := end);
      if end != c.memSize {
        ram[end] := ram[end].(prev := mem);
      }
      assert ram[..] == JoinWrites(c, before, mem, end);
      blocks := Join(blocks, i);
    }

    /** plug_holes, backward half */
    method PlugBackward(mem: int, ghost i: nat)
      requires Chained() && i < |blocks| && blocks[i].addr == mem && !blocks[i].used
      modifies this`lfree, this`blocks, ram
      ensures Chained() && blocks == JoinBackward(old(blocks), i) && ram[mem].next == old(ram[mem].next)
      ensures lfree == if 0 < i && !old(blocks)[i - 1].used && old(lfree) == mem then old(blocks)[i - 1].addr
                       else old(lfree)
    {
      NextIs(i);
      if 0 < i {
        NextIs(i - 1);
        assert LinkedBack(ram[..], blocks, i);
      }
      var pmem := ram[mem].prev;
      if pmem != mem && !ram[pmem].used {
        if lfree == mem {
          lfree := pmem;
        }
        WriteJoin(pmem, ram[mem].next, i - 1);
      }
    }

    /** plug_holes */
    method PlugHoles(mem: int, ghost i: nat)
      requires Chained() && i < |blocks| && blocks[i].addr == mem && !blocks[i].used
      modifies this`lfree, this`blocks, ram
      ensures i < |JoinForward(old(blocks), i)|
      ensures Chained() && blocks == JoinBackward(JoinForward(old(blocks), i), i)
      ensures lfree == PlugLfree(old(blocks), i, old(lfree))
      ensures ram[mem].next == old(blocks)[StretchEnd(old(blocks), i) - 1].end
    {
      ghost var bs := blocks;
      JoinForwardShape(bs, i);
      PlugForward(mem, i);
      PlugBackward(mem, i);
    }

    /** mem_link_valid */
    method LinkValid(mem: int) returns (r: bool)
      requires ram.Length == c.memSize + 1 && 0 <= mem <= c.memSize
      ensures r == LinkOk(c, ram[..], mem)
    {
      var h := ram[mem];
      if h.next > c.memSize || h.prev > c.memSize || h.next < 0 || h.prev < 0 {
        return false;
      }
      if h.prev != mem && ram[h.prev].next != mem {
        return false;
      }
      if h.next != c.memSize && ram[h.next].prev != mem {
        return false;
      }
      r := true;
    }

    /** mem_free once the pointer has been accepted: clear the flag, lower lfree, account, plug holes. */
    method Release(mem: int, ghost i: nat)
      requires Valid() && i < |blocks| && blocks[i].addr == mem && blocks[i].used
      modifies this`lfree, this`used, this`blocks, ram
      ensures Valid() && blocks == FreeAt(old(blocks), i)
      ensures ram[mem].next == old(blocks)[StretchEnd(old(blocks), i) - 1].end
    {
      ghost var bs := blocks;
      Unuse(mem, i);
      Rejoin(mem, i, bs);
      FreeSettles(c, bs, i, lfree, used);
    }

    /** plug_holes right after that. */
    method Rejoin(mem: int, ghost i: nat, ghost bs: seq<Block>)
      requires Chained() && Tiled(c, bs) && i < |bs| && bs[i].used && bs[i].addr == mem && blocks == Unmark(bs, i)
      requires lfree == if mem < LowestFree(c, bs) then mem else LowestFree(c, bs)
      modifies this`lfree, this`blocks, ram
      ensures Chained() && blocks == FreeAt(bs, i) && lfree == old(lfree)
      ensures ram[mem].next == bs[StretchEnd(bs, i) - 1].end
    {
      Plugged(c, bs, i, lfree);
      PlugHoles(mem, i);
    }

    /** Clear the flag, lower lfree, account. */
    method Unuse(mem: int, ghost i: nat)
      requires Valid() && i < |blocks| && blocks[i].addr == mem && blocks[i].used
      modifies this`lfree, this`used, this`blocks, ram
      ensures Chained() && blocks == Unmark(old(blocks), i)
      ensures lfree == if mem < old(lfree) then mem else old(lfree)
      ensures used == old(used) - (old(blocks)[i].end - mem)
    {
      UnmarkShape(blocks, i);
      WriteUsed(mem, false, i);
      if mem < lfree {
        lfree := mem;
      }
      NextIs(i);
      used := used - (ram[mem].next - mem);
    }

    /** mem_free; None is the NULL pointer */
    method Free(rmem: Option<int>)
      requires Valid()
      modifies this`lfree, this`used, this`illegal, this`blocks, ram
      ensures Valid()
      ensures rmem == None ==> blocks == old(blocks) && illegal == old(illegal)
      ensures rmem.Some? ==> blocks == FreeStep(c, old(blocks), rmem.value)
      ensures rmem.Some? ==>
        illegal == old(illegal) + if Owner(c, old(blocks), rmem.value, 0) == |old(blocks)| then 1 else 0
      ensures rmem.Some? && Owner(c, old(blocks), rmem.value, 0) < |old(blocks)| ==>
        var i := Owner(c, old(blocks), rmem.value, 0);
        && 0 <= rmem.value - c.headerSize < c.memSize
        && ram[rmem.value - c.headerSize].next == old(blocks)[StretchEnd(old(blocks), i) - 1].end
    {
      if rmem == None {
        return;
      }
      var p := rmem.value;
      AcceptedIffOwner(p);
      if p % 4 != 0 {
        illegal := illegal + 1;
        return;
      }
      var mem := p - c.headerSize;
      if mem < 0 || p + c.minSize > c.memSize {
        illegal := illegal + 1;
        return;
      }
      var ok := ram[mem].used;
      if ok {
        ok := LinkValid(mem);
      }
      if !ok {
        illegal := illegal + 1;
        return;
      }
      Release(mem, Owner(c, blocks, p, 0));
    }

    /** A caller that frees what it was given finds the heap, lfree and the statistic as they were. */
    method MallocThenFree(n: nat) returns (p: Option<int>)
      requires Valid() && n < c.modulus
      modifies this`lfree, this`used, this`err, this`illegal, this`blocks, ram
      ensures Valid() && p == MallocResult(c, old(blocks), n)
      ensures blocks == old(blocks) && lfree == old(lfree) && used == old(used) && illegal == old(illegal)
    {
      ghost var bs := blocks;
      p := Malloc(n);
      MallocFreeIs(c, bs, n);
      GiveBack(p, bs);
    }

    method GiveBack(p: Option<int>, ghost bs: seq<Block>)
      requires Valid() && (p == None ==> blocks == bs)
      requires p.Some? ==> Owner(c, blocks, p.value, 0) < |blocks| && FreeStep(c, blocks, p.value) == bs
      modifies this`lfree, this`used, this`illegal, this`blocks, ram
      ensures Valid() && blocks == bs && lfree == LowestFree(c, bs) && used == UsedBytes(bs) && illegal == old(illegal)
    {
      Free(p);
    }

    /** The tests mem_free makes, before it touches anything. */
    ghost predicate Accepts(p: int)
      requires ram.Length == c.memSize + 1
      reads this, ram
    {
      var mem := p - c.headerSize;
      p % 4 == 0 && 0 <= mem && p + c.minSize <= c.memSize && ram[mem].used && LinkOk(c, ram[..], mem)
    }

    /** mem_free goes through for every live pointer and for no other: a second free is always noticed. */
    lemma {:induction false} AcceptedIffOwner(p: int)
      requires Valid()
      ensures Accepts(p) <==> Owner(c, blocks, p, 0) < |blocks|
    {
      if Owner(c, blocks, p, 0) < |blocks| { OwnerAccepted(p); }
      if Accepts(p) { AcceptedOwned(p); }
    }

    /** A live pointer passes every test of mem_free. */
    lemma {:induction false} OwnerAccepted(p: int)
      requires Valid() && Owner(c, blocks, p, 0) < |blocks|
      ensures Accepts(p)
    {
      var i := Owner(c, blocks, p, 0);
      assert p % 4 == 0 by { CutAligned(c, blocks[i], 0); }
      assert BlockOk(c, blocks[i]);
      NextIs(i);
      ChainLinkOk(c, ram[..], blocks, i);
    }

    lemma {:induction false} AcceptedOwned(p: int)
      requires Valid() && Accepts(p)
      ensures Owner(c, blocks, p, 0) < |blocks|
    {
      assert IsHead(blocks, p - c.headerSize);
      var i :| 0 <= i < |blocks| && blocks[i].addr == p - c.headerSize;
      NextIs(i);
    }

    /** mem_trim after the size checks: whether the block is in use, or in the chain at all, is not looked at. */
    method Shrink(ptr: int, size: int)
      requires ValidConfig(c) && ram.Length == c.memSize + 1 && Sane(c, ram[..]) && ram[c.memSize].used
      requires Written(c, ram[..], ptr) && c.minSize <= size < SizeAt(c, ram[..], ptr)
      modifies this`lfree, this`used, ram
      ensures 0 <= old(ram[..])[ptr].next <= c.memSize
      ensures TrimEffects(c, old(ram[..]), ptr, size, old(lfree), old(used), ram[..], lfree, used)
    {
      assert HeaderSane(c, ptr, ram[..][ptr]);
      var oldSize := ram[ptr].next - ptr - c.headerSize;
      var mem2 := ram[ptr].next;
      var ptr2 := ptr + c.headerSize + size;
      if !ram[mem2].used {
        assert HeaderSane(c, mem2, ram[..][mem2]);
        if lfree == mem2 {
          lfree := ptr2;
        }
        WriteHeaders(ptr, ptr2, ram[mem2].next, ram[ptr].used);
        used := used - (oldSize - size);
      } else if size + c.headerSize + c.minSize <= oldSize {
        if ptr2 < lfree {
          lfree := ptr2;
        }
        WriteHeaders(ptr, ptr2, mem2, ram[ptr].used);
        used := used - (oldSize - size);
      }
    }

    lemma {:induction false} ValidSettled()
      ensures Valid() <==> AlignedConfig(c) && Sane(c, ram[..]) && Settled(c, ram[..], lfree, used, blocks)
    {
    }

    /** mem_trim to fewer bytes than the header says there are. */
    method Cut(ptr: int, size: int)
      requires Valid() && Written(c, ram[..], ptr) && c.minSize <= size < SizeAt(c, ram[..], ptr) && size % 4 == 0
      modifies this`lfree, this`used, this`blocks, ram
      ensures blocks == ChainAfter(c, old(blocks), ptr, size)
      ensures Valid() <==> !CutsDead(c, old(ram[..]), old(blocks), ptr, size)
      ensures !Valid() ==> forall bs :: !Settled(c, ram[..], lfree, used, bs)
      ensures Named(c, old(blocks), ptr + c.headerSize, 0) < |old(blocks)| ==> Chained()
      ensures used == old(used) - if Cuts(c, old(ram[..]), ptr, size) then SizeAt(c, old(ram[..]), ptr) - size else 0
    {
      ghost var bs, before, lfree0, used0 := blocks, ram[..], lfree, used;
      Shrink(ptr, size);
      blocks := ChainAfter(c, bs, ptr, size);
      if CutsDead(c, before, bs, ptr, size) {
        TrimBreaks(c, before, bs, ptr, size, lfree0, used0, ram[..], lfree, used);
      } else {
        TrimKeeps(c, before, bs, ptr, size, lfree0, used0, ram[..], lfree, used);
      }
      ghost var i := Named(c, bs, ptr + c.headerSize, 0);
      if i < |bs| { TrimChains(c, before, bs, ptr, size, lfree0, used0, ram[..], lfree, used, i); }
      ValidSettled();
    }

    /** What mem_trim goes by, for a header of the chain. */
    lemma {:induction false} HeadSays(i: nat, size: int)
      requires Valid() && i < |blocks| && c.minSize <= size
      ensures 0 <= blocks[i].addr < c.memSize && SizeAt(c, ram[..], blocks[i].addr) == Room(c, blocks[i])
      ensures Cuts(c, ram[..], blocks[i].addr, size) <==> CanTrim(c, blocks, i, size)
      ensures TrimAsserts(c, ram[..], blocks[i].addr, size) <==> AssertsInTrim(c, blocks, i, size)
    {
      HeadCuts(c, ram[..], blocks, i, size, lfree);
    }

    /** mem_trim once the size and the address range are found to be legal. */
    method TrimBlock(p: int, size: int) returns (r: Option<int>, asserted: bool)
      requires Valid() && Written(c, ram[..], p - c.headerSize) && c.minSize <= size && size % 4 == 0
      modifies this`lfree, this`used, this`blocks, ram
      ensures blocks == ChainAfter(c, old(blocks), p - c.headerSize, size)
      ensures Valid() <==> !CutsDead(c, old(ram[..]), old(blocks), p - c.headerSize, size)
      ensures !Valid() ==> forall bs :: !Settled(c, ram[..], lfree, used, bs)
      ensures Named(c, old(blocks), p, 0) < |old(blocks)| ==> Chained()
      ensures used == old(used) - if Cuts(c, old(ram[..]), p - c.headerSize, size)
                                  then SizeAt(c, old(ram[..]), p - c.headerSize) - size else 0
      ensures r == if size <= SizeAt(c, old(ram[..]), p - c.headerSize) then Some(p) else None
      ensures asserted <==> TrimAsserts(c, old(ram[..]), p - c.headerSize, size)
    {
      var ptr := p - c.headerSize;
      assert HeaderSane(c, ptr, ram[..][ptr]);
      var oldSize := ram[ptr].next - ptr - c.headerSize;
      if size >= oldSize {
        NothingCut(c, ram[..], blocks, ptr, size);
        return if size > oldSize then None else Some(p), size > oldSize;
      }
      asserted := ram[ptr].next == c.memSize && size + c.headerSize + c.minSize <= oldSize;
      r := Some(p);
      Cut(ptr, size);
    }

    /**
     mem_trim of a pointer outside the heap, or with a header in front that was ever written: of a block in use, of one
     that was freed, or of one whose header has left the chain since.  asserted tells whether an LWIP_ASSERT of the code
     would fire.  The heap stays in order if and only if nothing is cut that nobody owns; otherwise there is no chain
     that would make it so.
     */
    method Trim(p: int, newSize: nat) returns (r: Option<int>, asserted: bool)
      requires Valid() && newSize < c.modulus && (Outside(c, p) || Written(c, ram[..], p - c.headerSize))
      modifies this`lfree, this`used, this`illegal, this`blocks, ram
      ensures blocks == TrimStep(c, old(blocks), p, newSize)
      ensures Valid() <==> !TrimsDead(c, old(ram[..]), old(blocks), p, newSize)
      ensures !Valid() ==> forall bs :: !Settled(c, ram[..], lfree, used, bs)
      ensures Valid() || Named(c, old(blocks), p, 0) < |old(blocks)| ==> Chained()
      ensures RequestSize(c, newSize).Some? && !Outside(c, p) ==>
        OwnedTrimmed(c, old(blocks), blocks, p, RequestSize(c, newSize).value)
      ensures illegal == old(illegal) + if RequestSize(c, newSize).Some? && Outside(c, p) then 1 else 0
      ensures RequestSize(c, newSize) == None ==> r == None && !asserted
      ensures RequestSize(c, newSize).Some? && Outside(c, p) ==> r == Some(p) && asserted
      ensures RequestSize(c, newSize).Some? && !Outside(c, p) ==>
        var s, ptr := RequestSize(c, newSize).value, p - c.headerSize;
        && (r == if s <= SizeAt(c, old(ram[..]), ptr) then Some(p) else None)
        && (asserted <==> TrimAsserts(c, old(ram[..]), ptr, s))
    {
      r, asserted := None, false;
      var size := Request(newSize);
      if size.Some? {
        if p < 0 || c.memSize <= p {
          illegal := illegal + 1;
          r, asserted := Some(p), true;
        } else {
          TrimStepIs(c, blocks, p, newSize, size.value);
          TrimFits(c, blocks, p, newSize);
          r, asserted := TrimBlock(p, size.value);
        }
      }
    }
  }
}
