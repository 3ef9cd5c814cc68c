/**
 The lwIP heap as a chain of blocks (lib/lwip/src/core/mem.c).

 A block runs from the offset of its `struct mem` header to the offset stored in that
 header's `next` field.  The functions below say what mem_malloc, mem_free and mem_trim do
 to the chain; module HeapMemory proves that the pointer code does exactly that.
 */
module HeapChain {
  import opened Options

  /** MEM_SIZE_ALIGNED, SIZEOF_STRUCT_MEM, MIN_SIZE_ALIGNED and the modulus of mem_size_t. */
  datatype Config = Config(memSize: nat, headerSize: nat, minSize: nat, modulus: nat)

  ghost predicate ValidConfig(c: Config) {
    && 0 < c.headerSize && 0 < c.minSize
    && c.headerSize + c.minSize <= c.memSize < c.modulus
  }

  ghost predicate AlignedConfig(c: Config) {
    c.memSize % 4 == 0 && c.headerSize % 4 == 0 && c.minSize % 4 == 0 && c.modulus % 4 == 0
  }

  datatype Block = Block(addr: int, end: int, used: bool)

  /** Number of data bytes a block offers its owner. */
  function Room(c: Config, b: Block): int {
    b.end - b.addr - c.headerSize
  }

  ghost predicate BlockOk(c: Config, b: Block) {
    0 <= b.addr && b.end <= c.memSize && c.minSize <= Room(c, b)
  }

  /** The blocks cover [0, memSize) without gap or overlap, each at least the minimum size. */
  ghost predicate Tiled(c: Config, bs: seq<Block>) {
    && |bs| > 0 && bs[0].addr == 0 && bs[|bs| - 1].end == c.memSize
    && (forall i, j :: 0 <= i < |bs| && j == i + 1 < |bs| ==> bs[i].end == bs[j].addr)
    && (forall i :: 0 <= i < |bs| ==> BlockOk(c, bs[i]))
  }

  /** No free block is followed by another one. */
  ghost predicate Coalesced(bs: seq<Block>) {
    forall i, j :: 0 <= i < |bs| && j == i + 1 < |bs| ==> bs[i].used || bs[j].used
  }

  ghost predicate Inv(c: Config, bs: seq<Block>) {
    ValidConfig(c) && Tiled(c, bs) && Coalesced(bs)
  }

  /** Every block starts at a multiple of MEM_ALIGNMENT. */
  ghost predicate Aligned(bs: seq<Block>) {
    forall i :: 0 <= i < |bs| ==> bs[i].addr % 4 == 0
  }

  /** The used blocks among those with index in [lo, hi). */
  function LiveIn(bs: seq<Block>, lo: nat, hi: nat): set<Block>
    requires lo <= hi <= |bs|
  {
    if lo == hi then {} else LiveIn(bs, lo, hi - 1) + if bs[hi - 1].used then {bs[hi - 1]} else {}
  }

  /** Their total extent, headers included. */
  function BytesIn(bs: seq<Block>, lo: nat, hi: nat): int
    requires lo <= hi <= |bs|
  {
    if lo == hi then 0 else BytesIn(bs, lo, hi - 1) + if bs[hi - 1].used then bs[hi - 1].end - bs[hi - 1].addr else 0
  }

  /** What the owners of memory can see: the blocks in use. */
  function Live(bs: seq<Block>): set<Block> {
    LiveIn(bs, 0, |bs|)
  }

  /** Total extent of the used blocks: what the `used` statistic should say. */
  function UsedBytes(bs: seq<Block>): int {
    BytesIn(bs, 0, |bs|)
  }

  /** Offset of the first free block at index i or later, or memSize (ram_end). */
  function LowestFreeFrom(c: Config, bs: seq<Block>, i: nat): int
    requires i <= |bs|
    decreases |bs| - i
  {
    if i == |bs| then c.memSize else if !bs[i].used then bs[i].addr else LowestFreeFrom(c, bs, i + 1)
  }

  function LowestFree(c: Config, bs: seq<Block>): int {
    LowestFreeFrom(c, bs, 0)
  }

  predicate Fits(c: Config, b: Block, size: int) {
    !b.used && size <= Room(c, b)
  }

  // ----- request sizes -----

  /** LWIP_MEM_ALIGN_SIZE cast to mem_size_t: rounds up to a multiple of 4, wrapping at the modulus. */
  function AlignSize(c: Config, n: nat): nat
    requires 0 < c.modulus
  {
    (n + 3) / 4 * 4 % c.modulus
  }

  /** The data size served for a request of n bytes, or None when the request is refused up front. */
  function RequestSize(c: Config, n: nat): Option<int>
    requires 0 < c.modulus
  {
    var size := if AlignSize(c, n) < c.minSize then c.minSize else AlignSize(c, n);
    if c.memSize < size || size < n then None else Some(size)
  }

  /** The `size < size_in` test catches the wrap-around: a request is refused exactly when it cannot fit. */
  lemma {:induction false} RequestSizeExact(c: Config, n: nat)
    requires ValidConfig(c) && AlignedConfig(c) && n < c.modulus
    ensures RequestSize(c, n) == None <==> c.memSize < n
    ensures RequestSize(c, n).Some? ==>
      var s := RequestSize(c, n).value;
      s % 4 == 0 && n <= s && c.minSize <= s <= c.memSize && (s == c.minSize || s < n + 4)
  {
    var up := AlignUp(n);
    AlignSizeCases(c, n, up);
    NoMultipleBetween(up, c.memSize, n);
    NoMultipleBetween(up, c.modulus, n);
  }

  lemma {:induction false} AlignUp(n: nat) returns (up: nat)
    ensures up == (n + 3) / 4 * 4
    ensures n <= up < n + 4 && up % 4 == 0
  {
    up := (n + 3) / 4 * 4;
  }

  lemma {:induction false} AlignSizeCases(c: Config, n: nat, up: nat)
    requires 4 <= c.modulus && up == (n + 3) / 4 * 4 && n <= up < n + 4 && n < c.modulus
    ensures AlignSize(c, n) == if up < c.modulus then up else up - c.modulus
  {
    if c.modulus <= up {
      WrapOnce(up, c.modulus);
    }
  }

  /** Between n and n rounded up there is no multiple of 4 other than the latter. */
  lemma {:induction false} NoMultipleBetween(up: int, m: int, n: int)
    requires up % 4 == 0 && m % 4 == 0 && n <= up < n + 4
    ensures n <= m ==> up <= m
  {
  }

  lemma {:induction false} WrapOnce(a: int, m: int)
    requires 0 < m <= a < 2 * m
    ensures a % m == a - m
  {
    assert a / m == 1;
  }

  // ----- the operations: each replaces a few neighbouring blocks by others -----

  function Splice(bs: seq<Block>, i: nat, j: nat, mid: seq<Block>): seq<Block>
    requires i <= j <= |bs|
  {
    bs[..i] + mid + bs[j..]
  }

  function Initial(c: Config): seq<Block> {
    [Block(0, c.memSize, false)]
  }

  /** The block mem_malloc carves out of free block b. */
  function Carved(c: Config, b: Block, size: int): Block {
    if size + c.headerSize + c.minSize <= Room(c, b) then Block(b.addr, b.addr + c.headerSize + size, true)
    else b.(used := true)
  }

  function AllocPieces(c: Config, b: Block, size: int): seq<Block> {
    var carved := Carved(c, b, size);
    if carved.end < b.end then [carved, Block(carved.end, b.end, false)] else [carved]
  }

  /** Take the first size data bytes of free block i, keeping the remainder free if it is worth a block. */
  function AllocAt(c: Config, bs: seq<Block>, i: nat, size: int): seq<Block>
    requires i < |bs|
  {
    Splice(bs, i, i + 1, AllocPieces(c, bs[i], size))
  }

  /** First block of the free stretch that freeing block i produces, and the block after that stretch. */
  function StretchStart(bs: seq<Block>, i: nat): (r: nat)
    requires i < |bs|
    ensures r <= i
  {
    if 0 < i && !bs[i - 1].used then i - 1 else i
  }

  function StretchEnd(bs: seq<Block>, i: nat): (r: nat)
    requires i < |bs|
    ensures i < r <= |bs|
  {
    if i + 1 < |bs| && !bs[i + 1].used then i + 2 else i + 1
  }

  /** Block i and its free neighbours, at most one on each side, become one free block. */
  function FreeAt(bs: seq<Block>, i: nat): seq<Block>
    requires i < |bs|
  {
    var lo, hi := StretchStart(bs, i), StretchEnd(bs, i);
    Splice(bs, lo, hi, [Block(bs[lo].addr, bs[hi - 1].end, false)])
  }

  /** Can block i shrink to size data bytes: is there somewhere for the tail to go? */
  predicate CanTrim(c: Config, bs: seq<Block>, i: nat, size: int)
    requires i < |bs|
  {
    && size < Room(c, bs[i])
    && ((i + 1 < |bs| && !bs[i + 1].used) || size + c.headerSize + c.minSize <= Room(c, bs[i]))
  }

  /** The tail cut off block i joins a free successor or becomes a free block of its own. */
  function TrimAt(c: Config, bs: seq<Block>, i: nat, size: int): seq<Block>
    requires i < |bs|
  {
    if CanTrim(c, bs, i, size) then
      var cut := bs[i].addr + c.headerSize + size;
      var hi := StretchEnd(bs, i);
      Splice(bs, i, hi, [Block(bs[i].addr, cut, bs[i].used), Block(cut, bs[hi - 1].end, false)])
    else bs
  }

  // ----- consequences of tiling -----

  /** Blocks lie in address order. */
  lemma {:induction false} Ordered(c: Config, bs: seq<Block>, i: nat, j: nat)
    requires Tiled(c, bs) && ValidConfig(c)
    requires i < j < |bs|
    ensures bs[i].end <= bs[j].addr
    decreases j - i
  {
    if i + 1 < j {
      Ordered(c, bs, i + 1, j);
      assert BlockOk(c, bs[i + 1]);
    }
  }

  /** A block is found by its address. */
  lemma {:induction false} AddrUnique(c: Config, bs: seq<Block>, i: nat, j: nat)
    requires Tiled(c, bs) && ValidConfig(c)
    requires i < |bs| && j < |bs| && bs[i].addr == bs[j].addr
    ensures i == j
  {
    assert BlockOk(c, bs[i]) && BlockOk(c, bs[j]);
    if i < j { Ordered(c, bs, i, j); }
    if j < i { Ordered(c, bs, j, i); }
  }

  lemma {:induction false} LowestFreeAt(c: Config, bs: seq<Block>, i: nat, j: nat)
    requires i <= j <= |bs|
    requires forall k :: i <= k < j ==> bs[k].used
    requires j < |bs| ==> !bs[j].used
    ensures LowestFreeFrom(c, bs, i) == if j < |bs| then bs[j].addr else c.memSize
    decreases j - i
  {
    if i < j {
      LowestFreeAt(c, bs, i + 1, j);
    }
  }

  lemma {:induction false} LiveMember(bs: seq<Block>, lo: nat, hi: nat, b: Block)
    requires lo <= hi <= |bs|
    ensures b in LiveIn(bs, lo, hi) <==> exists k :: lo <= k < hi && bs[k] == b && b.used
  {
    if lo < hi { LiveMember(bs, lo, hi - 1, b); }
  }

  lemma {:induction false} RangeSplit(bs: seq<Block>, lo: nat, mid: nat, hi: nat)
    requires lo <= mid <= hi <= |bs|
    ensures LiveIn(bs, lo, hi) == LiveIn(bs, lo, mid) + LiveIn(bs, mid, hi)
    ensures BytesIn(bs, lo, hi) == BytesIn(bs, lo, mid) + BytesIn(bs, mid, hi)
  {
    if mid < hi { RangeSplit(bs, lo, mid, hi - 1); }
  }

  lemma {:induction false} RangeCopy(xs: seq<Block>, x: nat, ys: seq<Block>, y: nat, n: nat)
    requires x + n <= |xs| && y + n <= |ys|
    requires xs[x..x + n] == ys[y..y + n]
    ensures LiveIn(xs, x, x + n) == LiveIn(ys, y, y + n)
    ensures BytesIn(xs, x, x + n) == BytesIn(ys, y, y + n)
  {
    if 0 < n {
      assert xs[x..x + n][n - 1] == ys[y..y + n][n - 1];
      assert xs[x..x + n][..n - 1] == ys[y..y + n][..n - 1];
      assert xs[x..x + n - 1] == xs[x..x + n][..n - 1] && ys[y..y + n - 1] == ys[y..y + n][..n - 1];
      RangeCopy(xs, x, ys, y, n - 1);
    }
  }

  /** A piece of the chain without used blocks. */
  lemma {:induction false} NoneUsed(bs: seq<Block>, lo: nat, hi: nat)
    requires lo <= hi <= |bs|
    requires forall k :: lo <= k < hi ==> !bs[k].used
    ensures LiveIn(bs, lo, hi) == {} && BytesIn(bs, lo, hi) == 0
  {
    if lo < hi { NoneUsed(bs, lo, hi - 1); }
  }

  /** A piece of the chain with one used block. */
  lemma {:induction false} SoleUsed(bs: seq<Block>, lo: nat, i: nat, hi: nat)
    requires lo <= i < hi <= |bs| && bs[i].used
    requires forall k :: lo <= k < hi && k != i ==> !bs[k].used
    ensures LiveIn(bs, lo, hi) == {bs[i]} && BytesIn(bs, lo, hi) == bs[i].end - bs[i].addr
  {
    RangeSplit(bs, lo, i + 1, hi);
    NoneUsed(bs, lo, i);
    NoneUsed(bs, i + 1, hi);
  }

  // ----- splicing keeps the invariant -----

  lemma {:induction false} SpliceIndex(bs: seq<Block>, i: nat, j: nat, mid: seq<Block>)
    requires i <= j <= |bs|
    ensures |Splice(bs, i, j, mid)| == |bs| - (j - i) + |mid|
    ensures forall k :: 0 <= k < i ==> Splice(bs, i, j, mid)[k] == bs[k]
    ensures forall k :: 0 <= k < |mid| ==> Splice(bs, i, j, mid)[i + k] == mid[k]
    ensures forall k :: i <= k < i + |mid| ==> Splice(bs, i, j, mid)[k] == mid[k - i]
    ensures forall k :: i + |mid| <= k < |bs| - (j - i) + |mid| ==> Splice(bs, i, j, mid)[k] == bs[k - |mid| + (j - i)]
  {
  }

  /** New blocks that cover the same extent keep the tiling. */
  lemma {:induction false} SpliceTiled(c: Config, bs: seq<Block>, i: nat, j: nat, mid: seq<Block>)
    requires Tiled(c, bs) && i < j <= |bs| && |mid| > 0
    requires mid[0].addr == bs[i].addr && mid[|mid| - 1].end == bs[j - 1].end
    requires forall k, m :: 0 <= k < |mid| && m == k + 1 < |mid| ==> mid[k].end == mid[m].addr
    requires forall k :: 0 <= k < |mid| ==> BlockOk(c, mid[k])
    ensures Tiled(c, Splice(bs, i, j, mid))
  {
    SpliceIndex(bs, i, j, mid);
    var ns := Splice(bs, i, j, mid);
    forall k, m | 0 <= k < |ns| && m == k + 1 < |ns| ensures ns[k].end == ns[m].addr {
      if m < i {
        assert ns[k] == bs[k] && ns[m] == bs[m];
      } else if m == i {
        assert ns[k] == bs[i - 1] && ns[m] == mid[0];
      } else if m < i + |mid| {
        assert ns[k] == mid[k - i] && ns[m] == mid[m - i];
      } else if m == i + |mid| {
        assert ns[k] == mid[|mid| - 1] && ns[m] == bs[j];
      } else {
        assert ns[k] == bs[k - |mid| + (j - i)] && ns[m] == bs[m - |mid| + (j - i)];
      }
    }
  }

  lemma {:induction false} SpliceCoalesced(bs: seq<Block>, i: nat, j: nat, mid: seq<Block>)
    requires Coalesced(bs) && Coalesced(mid) && i < j <= |bs| && |mid| > 0
    requires 0 < i ==> bs[i - 1].used || mid[0].used
    requires j < |bs| ==> mid[|mid| - 1].used || bs[j].used
    ensures Coalesced(Splice(bs, i, j, mid))
  {
    SpliceIndex(bs, i, j, mid);
    var ns := Splice(bs, i, j, mid);
    forall k, m | 0 <= k < |ns| && m == k + 1 < |ns| ensures ns[k].used || ns[m].used {
      if m < i {
        assert ns[k] == bs[k] && ns[m] == bs[m];
      } else if m == i {
        assert ns[k] == bs[i - 1] && ns[m] == mid[0];
      } else if m < i + |mid| {
        assert ns[k] == mid[k - i] && ns[m] == mid[m - i];
      } else if m == i + |mid| {
        assert ns[k] == mid[|mid| - 1] && ns[m] == bs[j];
      } else {
        assert ns[k] == bs[k - |mid| + (j - i)] && ns[m] == bs[m - |mid| + (j - i)];
      }
    }
  }

  /** The replaced live blocks go, the new ones come, all others stay. */
  lemma {:induction false} SpliceEffect(c: Config, bs: seq<Block>, i: nat, j: nat, mid: seq<Block>)
    requires ValidConfig(c) && Tiled(c, bs) && i <= j <= |bs|
    ensures Live(Splice(bs, i, j, mid)) == Live(bs) - LiveIn(bs, i, j) + Live(mid)
    ensures UsedBytes(Splice(bs, i, j, mid)) == UsedBytes(bs) - BytesIn(bs, i, j) + UsedBytes(mid)
  {
    SpliceRanges(bs, i, j, mid);
    RangeSplit(bs, 0, i, |bs|);
    RangeSplit(bs, i, j, |bs|);
    LiveInDisjoint(c, bs, 0, i, j);
    LiveInDisjoint(c, bs, i, j, |bs|);
  }

  lemma {:induction false} SpliceRanges(bs: seq<Block>, i: nat, j: nat, mid: seq<Block>)
    requires i <= j <= |bs|
    ensures Live(Splice(bs, i, j, mid)) == LiveIn(bs, 0, i) + Live(mid) + LiveIn(bs, j, |bs|)
    ensures UsedBytes(Splice(bs, i, j, mid)) == BytesIn(bs, 0, i) + UsedBytes(mid) + BytesIn(bs, j, |bs|)
  {
    RangeConcat(bs[..i] + mid, bs[j..]);
    RangeConcat(bs[..i], mid);
    RangeSlice(bs, 0, i);
    RangeSlice(bs, j, |bs|);
    assert bs[0..i] == bs[..i] && bs[j..|bs|] == bs[j..];
  }

  lemma {:induction false} RangeSlice(bs: seq<Block>, lo: nat, hi: nat)
    requires lo <= hi <= |bs|
    ensures Live(bs[lo..hi]) == LiveIn(bs, lo, hi) && UsedBytes(bs[lo..hi]) == BytesIn(bs, lo, hi)
  {
    assert bs[lo..hi][0..hi - lo] == bs[lo..lo + (hi - lo)];
    RangeCopy(bs[lo..hi], 0, bs, lo, hi - lo);
  }

  lemma {:induction false} RangeConcat(xs: seq<Block>, ys: seq<Block>)
    ensures Live(xs + ys) == Live(xs) + Live(ys) && UsedBytes(xs + ys) == UsedBytes(xs) + UsedBytes(ys)
  {
    var zs := xs + ys;
    RangeSplit(zs, 0, |xs|, |zs|);
    assert zs[0..0 + |xs|] == xs[0..0 + |xs|];
    RangeCopy(zs, 0, xs, 0, |xs|);
    assert zs[|xs|..|xs| + |ys|] == ys[0..0 + |ys|];
    RangeCopy(zs, |xs|, ys, 0, |ys|);
  }

  lemma {:induction false} LiveInDisjoint(c: Config, bs: seq<Block>, lo: nat, mid: nat, hi: nat)
    requires ValidConfig(c) && Tiled(c, bs) && lo <= mid <= hi <= |bs|
    ensures LiveIn(bs, lo, mid) !! LiveIn(bs, mid, hi)
  {
    forall b | b in LiveIn(bs, lo, mid) && b in LiveIn(bs, mid, hi) ensures false {
      LiveMember(bs, lo, mid, b);
      LiveMember(bs, mid, hi, b);
      var k :| lo <= k < mid && bs[k] == b;
      var m :| mid <= m < hi && bs[m] == b;
      AddrUnique(c, bs, k, m);
    }
  }

  // ----- each operation keeps the invariant and changes the live set as its caller expects -----

  /** mem_malloc: the invariant is kept and one new block with enough data bytes goes live. */
  lemma {:induction false} AllocKeepsInv(c: Config, bs: seq<Block>, i: nat, size: int)
    requires Inv(c, bs) && i < |bs| && Fits(c, bs[i], size)
    requires c.minSize <= size
    ensures Inv(c, AllocAt(c, bs, i, size))
  {
    var mid := AllocPieces(c, bs[i], size);
    assert forall k :: 0 <= k < |mid| ==> BlockOk(c, mid[k]) by {
      assert BlockOk(c, bs[i]);
    }
    SpliceTiled(c, bs, i, i + 1, mid);
    SpliceCoalesced(bs, i, i + 1, mid);
  }

  lemma {:induction false} AllocEffect(c: Config, bs: seq<Block>, i: nat, size: int)
    requires Inv(c, bs) && i < |bs| && Fits(c, bs[i], size)
    requires c.minSize <= size
    ensures var b := Carved(c, bs[i], size);
      && b.used && b.addr == bs[i].addr && b.end <= bs[i].end
      && (Room(c, b) == size || (b.end == bs[i].end && size < Room(c, b) < size + c.headerSize + c.minSize))
      && Live(AllocAt(c, bs, i, size)) == Live(bs) + {b}
      && UsedBytes(AllocAt(c, bs, i, size)) == UsedBytes(bs) + (b.end - b.addr)
  {
    var mid := AllocPieces(c, bs[i], size);
    NoneUsed(bs, i, i + 1);
    SoleUsed(mid, 0, 0, |mid|);
    SpliceEffect(c, bs, i, i + 1, mid);
  }

  /** A new block overlaps none of the live ones. */
  lemma {:induction false} AllocDisjoint(c: Config, bs: seq<Block>, i: nat, size: int, l: Block)
    requires Inv(c, bs) && i < |bs| && Fits(c, bs[i], size) && c.minSize <= size
    requires l in Live(bs)
    ensures l.end <= Carved(c, bs[i], size).addr || Carved(c, bs[i], size).end <= l.addr
  {
    LiveMember(bs, 0, |bs|, l);
    var k :| 0 <= k < |bs| && bs[k] == l;
    if k < i { Ordered(c, bs, k, i); } else { Ordered(c, bs, i, k); }
  }

  /** A free stretch cannot extend further: its neighbours are used. */
  lemma {:induction false} StretchBounded(bs: seq<Block>, i: nat)
    requires Coalesced(bs) && i < |bs|
    ensures 0 < StretchStart(bs, i) ==> bs[StretchStart(bs, i) - 1].used
    ensures StretchEnd(bs, i) < |bs| ==> bs[StretchEnd(bs, i)].used
  {
  }

  /** mem_free: one merge on each side is enough to coalesce again. */
  lemma {:induction false} FreeKeepsInv(c: Config, bs: seq<Block>, i: nat)
    requires Inv(c, bs) && i < |bs| && bs[i].used
    ensures Inv(c, FreeAt(bs, i))
  {
    var lo, hi := StretchStart(bs, i), StretchEnd(bs, i);
    var mid := [Block(bs[lo].addr, bs[hi - 1].end, false)];
    assert BlockOk(c, bs[lo]) && BlockOk(c, bs[hi - 1]);
    if lo < hi - 1 { Ordered(c, bs, lo, hi - 1); }
    StretchBounded(bs, i);
    SpliceTiled(c, bs, lo, hi, mid);
    SpliceCoalesced(bs, lo, hi, mid);
  }

  lemma {:induction false} FreeEffect(c: Config, bs: seq<Block>, i: nat)
    requires Inv(c, bs) && i < |bs| && bs[i].used
    ensures Live(FreeAt(bs, i)) == Live(bs) - {bs[i]}
    ensures UsedBytes(FreeAt(bs, i)) == UsedBytes(bs) - (bs[i].end - bs[i].addr)
  {
    var lo, hi := StretchStart(bs, i), StretchEnd(bs, i);
    var mid := [Block(bs[lo].addr, bs[hi - 1].end, false)];
    SoleUsed(bs, lo, i, hi);
    NoneUsed(mid, 0, 1);
    SpliceEffect(c, bs, lo, hi, mid);
  }

  /** mem_trim keeps the invariant and only moves the end of the block it is given. */
  lemma {:induction false} TrimKeepsInv(c: Config, bs: seq<Block>, i: nat, size: int)
    requires Inv(c, bs) && i < |bs| && bs[i].used
    requires c.minSize <= size
    ensures Inv(c, TrimAt(c, bs, i, size))
  {
    if CanTrim(c, bs, i, size) {
      var hi := StretchEnd(bs, i);
      var cut := bs[i].addr + c.headerSize + size;
      var mid := [Block(bs[i].addr, cut, true), Block(cut, bs[hi - 1].end, false)];
      assert Tiled(c, Splice(bs, i, hi, mid)) by {
        TrimPiecesOk(c, bs, i, size);
        SpliceTiled(c, bs, i, hi, mid);
      }
      assert Coalesced(Splice(bs, i, hi, mid)) by {
        StretchBounded(bs, i);
        SpliceCoalesced(bs, i, hi, mid);
      }
      assert TrimAt(c, bs, i, size) == Splice(bs, i, hi, mid);
    }
  }

  /** On a block that is free already it tiles, but leaves two free neighbours. */
  lemma {:induction false} FreedTrimBreaks(c: Config, bs: seq<Block>, i: nat, size: int)
    requires Inv(c, bs) && i < |bs| && !bs[i].used && c.minSize <= size && CanTrim(c, bs, i, size)
    ensures Tiled(c, TrimAt(c, bs, i, size)) && !Coalesced(TrimAt(c, bs, i, size))
  {
    var hi := StretchEnd(bs, i);
    var cut := bs[i].addr + c.headerSize + size;
    var mid := [Block(bs[i].addr, cut, false), Block(cut, bs[hi - 1].end, false)];
    TrimPiecesOk(c, bs, i, size);
    SpliceTiled(c, bs, i, hi, mid);
    var ns := Splice(bs, i, hi, mid);
    assert ns[i] == mid[0] && ns[i + 1] == mid[1];
  }

  lemma {:induction false} TrimPiecesOk(c: Config, bs: seq<Block>, i: nat, size: int)
    requires ValidConfig(c) && Tiled(c, bs) && i < |bs| && c.minSize <= size && CanTrim(c, bs, i, size)
    ensures var cut := bs[i].addr + c.headerSize + size;
      && BlockOk(c, Block(bs[i].addr, cut, bs[i].used))
      && BlockOk(c, Block(cut, bs[StretchEnd(bs, i) - 1].end, false))
  {
    assert BlockOk(c, bs[i]);
    if StretchEnd(bs, i) == i + 2 {
      assert BlockOk(c, bs[i + 1]) && bs[i].end == bs[i + 1].addr;
    }
  }

  lemma {:induction false} TrimEffect(c: Config, bs: seq<Block>, i: nat, size: int)
    requires Inv(c, bs) && i < |bs| && bs[i].used && CanTrim(c, bs, i, size)
    ensures Live(TrimAt(c, bs, i, size))
      == Live(bs) - {bs[i]} + {Block(bs[i].addr, bs[i].addr + c.headerSize + size, true)}
    ensures UsedBytes(TrimAt(c, bs, i, size)) == UsedBytes(bs) - (Room(c, bs[i]) - size)
  {
    var hi := StretchEnd(bs, i);
    var cut := bs[i].addr + c.headerSize + size;
    var mid := [Block(bs[i].addr, cut, true), Block(cut, bs[hi - 1].end, false)];
    SoleUsed(bs, i, i, hi);
    SoleUsed(mid, 0, 0, 2);
    SpliceEffect(c, bs, i, hi, mid);
  }

  /**
   ns is bs with block i shrunk to exactly size bytes; it is bs if what could be given up is too little for a block and
   there is no free block behind to add it to.
   */
  ghost predicate TrimmedTo(c: Config, bs: seq<Block>, ns: seq<Block>, i: nat, size: int)
    requires i < |bs|
  {
    && i < |ns| && ns[i].addr == bs[i].addr && Live(ns) == Live(bs) - {bs[i]} + {ns[i]}
    && (|| Room(c, ns[i]) == size
        || (&& ns == bs && size < Room(c, bs[i]) < size + c.headerSize + c.minSize
            && (i + 1 < |bs| ==> bs[i + 1].used)))
  }

  /** mem_trim cuts whenever it can. */
  lemma {:induction false} TrimCuts(c: Config, bs: seq<Block>, i: nat, size: int)
    requires Inv(c, bs) && i < |bs| && bs[i].used && c.minSize <= size <= Room(c, bs[i])
    ensures TrimmedTo(c, bs, TrimAt(c, bs, i, size), i, size)
  {
    if CanTrim(c, bs, i, size) {
      TrimEffect(c, bs, i, size);
    } else {
      LiveMember(bs, 0, |bs|, bs[i]);
    }
  }
}
