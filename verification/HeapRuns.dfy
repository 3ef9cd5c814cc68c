/**
 Whole runs of the lwIP heap: what holds after any sequence of mem_malloc, mem_free and
 mem_trim calls, and why the chain depends on nothing but the blocks still in use.
 */
module HeapRuns {
  import opened Options
  import opened HeapChain

  /** A call; pointers are offsets of the data area, one header after the start of the block. */
  datatype Call = Malloc(n: nat) | Free(p: int) | Trim(p: int, n: nat)

  predicate SizeFits(c: Config, call: Call) {
    call.Free? || call.n < c.modulus
  }

  /** Index of the first block at or after i that can serve size data bytes, or |bs|. */
  function FirstFit(c: Config, bs: seq<Block>, size: int, i: nat): (r: nat)
    requires i <= |bs|
    ensures i <= r <= |bs|
    ensures r < |bs| ==> Fits(c, bs[r], size)
    ensures forall k :: i <= k < r ==> !Fits(c, bs[k], size)
    decreases |bs| - i
  {
    if i == |bs| || Fits(c, bs[i], size) then i else FirstFit(c, bs, size, i + 1)
  }

  /** Index of the used block whose data area starts at p, or |bs|. */
  function Owner(c: Config, bs: seq<Block>, p: int, i: nat): (r: nat)
    requires i <= |bs|
    ensures i <= r <= |bs|
    ensures r < |bs| ==> bs[r].used && bs[r].addr + c.headerSize == p
    ensures forall k :: i <= k < r ==> !(bs[k].used && bs[k].addr + c.headerSize == p)
    decreases |bs| - i
  {
    if i == |bs| || (bs[i].used && bs[i].addr + c.headerSize == p) then i else Owner(c, bs, p, i + 1)
  }

  /** Index of the block, used or not, whose data area starts at p, or |bs|. */
  function Named(c: Config, bs: seq<Block>, p: int, i: nat): (r: nat)
    requires i <= |bs|
    ensures i <= r <= |bs|
    ensures r < |bs| ==> bs[r].addr + c.headerSize == p
    ensures forall k :: i <= k < r ==> bs[k].addr + c.headerSize != p
    decreases |bs| - i
  {
    if i == |bs| || bs[i].addr + c.headerSize == p then i else Named(c, bs, p, i + 1)
  }

  /** The range test of mem_trim. */
  predicate Outside(c: Config, p: int) {
    p < 0 || c.memSize <= p
  }

  /** The first block that fits gives size data bytes. */
  function Served(c: Config, bs: seq<Block>, size: int): seq<Block> {
    var i := FirstFit(c, bs, size, 0);
    if i == |bs| then bs else AllocAt(c, bs, i, size)
  }

  /** And its data area is the result. */
  function ServedAt(c: Config, bs: seq<Block>, size: int): Option<int> {
    var i := FirstFit(c, bs, size, 0);
    if i == |bs| then None else Some(bs[i].addr + c.headerSize)
  }

  function MallocStep(c: Config, bs: seq<Block>, n: nat): seq<Block>
    requires ValidConfig(c)
  {
    if n == 0 || RequestSize(c, n) == None then bs else Served(c, bs, RequestSize(c, n).value)
  }

  /** The pointer mem_malloc returns. */
  function MallocResult(c: Config, bs: seq<Block>, n: nat): Option<int>
    requires ValidConfig(c)
  {
    if n == 0 || RequestSize(c, n) == None then None else ServedAt(c, bs, RequestSize(c, n).value)
  }

  function FreeStep(c: Config, bs: seq<Block>, p: int): seq<Block> {
    var i := Owner(c, bs, p, 0);
    if i == |bs| then bs else FreeAt(bs, i)
  }

  /** mem_trim looks at the address range only: a block that was freed is cut like any other. */
  function TrimStep(c: Config, bs: seq<Block>, p: int, n: nat): seq<Block>
    requires ValidConfig(c)
  {
    var i := Named(c, bs, p, 0);
    if Outside(c, p) || i == |bs| || RequestSize(c, n) == None then bs else TrimAt(c, bs, i, RequestSize(c, n).value)
  }

  function Step(c: Config, bs: seq<Block>, call: Call): seq<Block>
    requires ValidConfig(c)
  {
    match call
    case Malloc(n) => MallocStep(c, bs, n)
    case Free(p) => FreeStep(c, bs, p)
    case Trim(p, n) => TrimStep(c, bs, p, n)
  }

  /** The chain after mem_init and the given calls. */
  function Run(c: Config, calls: seq<Call>): seq<Block>
    requires ValidConfig(c)
  {
    if calls == [] then Initial(c) else Step(c, Run(c, calls[..|calls| - 1]), calls[|calls| - 1])
  }

  /** The pointer mem_trim is given is outside the heap or was once returned by mem_malloc and still has its header. */
  predicate Plain(c: Config, bs: seq<Block>, call: Call) {
    call.Trim? ==> Outside(c, call.p) || Named(c, bs, call.p, 0) < |bs|
  }

  /** mem_trim would cut a block that was freed. */
  predicate CutsFreed(c: Config, bs: seq<Block>, call: Call)
    requires ValidConfig(c)
  {
    && call.Trim? && !Outside(c, call.p) && RequestSize(c, call.n).Some?
    && var i := Named(c, bs, call.p, 0); i < |bs| && !bs[i].used && CanTrim(c, bs, i, RequestSize(c, call.n).value)
  }

  /** Every call of the run is one its caller may make: any malloc and free, but no trim that cuts a freed block. */
  predicate Proper(c: Config, calls: seq<Call>)
    requires ValidConfig(c)
  {
    calls == [] ||
    var front, call := calls[..|calls| - 1], calls[|calls| - 1];
    Proper(c, front) && SizeFits(c, call) && Plain(c, Run(c, front), call) && !CutsFreed(c, Run(c, front), call)
  }

  // ----- the invariant over every run -----

  lemma {:induction false} SpliceAligned(bs: seq<Block>, i: nat, j: nat, mid: seq<Block>)
    requires Aligned(bs) && Aligned(mid) && i <= j <= |bs|
    ensures Aligned(Splice(bs, i, j, mid))
  {
    var ns := Splice(bs, i, j, mid);
    forall k | 0 <= k < |ns| ensures ns[k].addr % 4 == 0 {
      if k < i { assert ns[k] == bs[k]; }
      else if k < i + |mid| { assert ns[k] == mid[k - i]; }
      else { assert ns[k] == bs[k - |mid| + (j - i)]; }
    }
  }

  lemma {:induction false} CutAligned(c: Config, b: Block, size: int)
    requires b.addr % 4 == 0 && c.headerSize % 4 == 0 && size % 4 == 0
    ensures (b.addr + c.headerSize + size) % 4 == 0
  {
  }

  lemma {:induction false} StepAligned(c: Config, bs: seq<Block>, call: Call)
    requires ValidConfig(c) && AlignedConfig(c) && SizeFits(c, call) && Aligned(bs)
    ensures Aligned(Step(c, bs, call))
  {
    match call
    case Malloc(n) =>
      if n != 0 && RequestSize(c, n).Some? {
        RequestSizeExact(c, n);
        var size := RequestSize(c, n).value;
        var i := FirstFit(c, bs, size, 0);
        if i < |bs| { AllocAligned(c, bs, i, size); }
      }
    case Free(p) =>
      var i := Owner(c, bs, p, 0);
      if i < |bs| { FreeAligned(bs, i); }
    case Trim(p, n) =>
      var i := Named(c, bs, p, 0);
      if i < |bs| && RequestSize(c, n).Some? {
        RequestSizeExact(c, n);
        TrimAligned(c, bs, i, RequestSize(c, n).value);
      }
  }

  lemma {:induction false} AllocAligned(c: Config, bs: seq<Block>, i: nat, size: int)
    requires Aligned(bs) && c.headerSize % 4 == 0 && size % 4 == 0 && i < |bs|
    ensures Aligned(AllocAt(c, bs, i, size))
  {
    CutAligned(c, bs[i], size);
    SpliceAligned(bs, i, i + 1, AllocPieces(c, bs[i], size));
  }

  lemma {:induction false} FreeAligned(bs: seq<Block>, i: nat)
    requires Aligned(bs) && i < |bs|
    ensures Aligned(FreeAt(bs, i))
  {
    var lo, hi := StretchStart(bs, i), StretchEnd(bs, i);
    SpliceAligned(bs, lo, hi, [Block(bs[lo].addr, bs[hi - 1].end, false)]);
  }

  lemma {:induction false} TrimAligned(c: Config, bs: seq<Block>, i: nat, size: int)
    requires Aligned(bs) && c.headerSize % 4 == 0 && size % 4 == 0 && i < |bs|
    ensures Aligned(TrimAt(c, bs, i, size))
  {
    CutAligned(c, bs[i], size);
    if CanTrim(c, bs, i, size) {
      var hi := StretchEnd(bs, i);
      var cut := bs[i].addr + c.headerSize + size;
      SpliceAligned(bs, i, hi, [Block(bs[i].addr, cut, bs[i].used), Block(cut, bs[hi - 1].end, false)]);
    }
  }

  /** A call keeps the invariant if and only if it does not trim a block that was freed. */
  lemma {:induction false} StepKeepsInv(c: Config, bs: seq<Block>, call: Call)
    requires Inv(c, bs) && AlignedConfig(c) && SizeFits(c, call) && Plain(c, bs, call)
    ensures Inv(c, Step(c, bs, call)) <==> !CutsFreed(c, bs, call)
  {
    match call
    case Malloc(n) =>
      if n != 0 && RequestSize(c, n).Some? {
        RequestSizeExact(c, n);
        var size := RequestSize(c, n).value;
        var i := FirstFit(c, bs, size, 0);
        if i < |bs| { AllocKeepsInv(c, bs, i, size); }
      }
    case Free(p) =>
      var i := Owner(c, bs, p, 0);
      if i < |bs| { FreeKeepsInv(c, bs, i); }
    case Trim(p, n) =>
      var i := Named(c, bs, p, 0);
      if i < |bs| && RequestSize(c, n).Some? {
        RequestSizeExact(c, n);
        TrimKeepsInvIff(c, bs, i, RequestSize(c, n).value);
      }
  }

  lemma {:induction false} TrimKeepsInvIff(c: Config, bs: seq<Block>, i: nat, size: int)
    requires Inv(c, bs) && i < |bs| && c.minSize <= size
    ensures Inv(c, TrimAt(c, bs, i, size)) <==> bs[i].used || !CanTrim(c, bs, i, size)
  {
    if bs[i].used {
      TrimKeepsInv(c, bs, i, size);
    } else if CanTrim(c, bs, i, size) {
      FreedTrimBreaks(c, bs, i, size);
    }
  }

  /** After any such calls the blocks tile the heap, are coalesced and are aligned. */
  lemma {:induction false} RunKeepsInv(c: Config, calls: seq<Call>)
    requires ValidConfig(c) && AlignedConfig(c) && Proper(c, calls)
    ensures Inv(c, Run(c, calls)) && Aligned(Run(c, calls))
  {
    if calls != [] {
      var last := |calls| - 1;
      RunKeepsInv(c, calls[..last]);
      StepKeepsInv(c, Run(c, calls[..last]), calls[last]);
      StepAligned(c, Run(c, calls[..last]), calls[last]);
    }
  }

  // ----- the chain is a function of the blocks in use -----

  /** Two coalesced tilings with the same used blocks agree on every block. */
  lemma {:induction false} SameBlock(c: Config, xs: seq<Block>, ys: seq<Block>, k: nat)
    requires Inv(c, xs) && Inv(c, ys) && Live(xs) == Live(ys)
    requires k < |xs|
    ensures k < |ys| && xs[k] == ys[k]
  {
    if 0 < k {
      SameBlock(c, xs, ys, k - 1);
      assert BlockOk(c, xs[k]);
      assert xs[k - 1].end == xs[k].addr;
      assert ys[k - 1].end != ys[|ys| - 1].end;
    }
    if xs[k].used {
      UsedAtSameIndex(c, xs, ys, k);
    } else if ys[k].used {
      UsedAtSameIndex(c, ys, xs, k);
    } else if xs[k].end < ys[k].end {
      FreeNoShorter(c, xs, ys, k);
    } else if ys[k].end < xs[k].end {
      FreeNoShorter(c, ys, xs, k);
    }
  }

  lemma {:induction false} UsedAtSameIndex(c: Config, xs: seq<Block>, ys: seq<Block>, k: nat)
    requires Inv(c, xs) && Inv(c, ys) && Live(xs) == Live(ys)
    requires k < |xs| && k < |ys| && xs[k].addr == ys[k].addr && xs[k].used
    ensures xs[k] == ys[k]
  {
    LiveMember(xs, 0, |xs|, xs[k]);
    LiveMember(ys, 0, |ys|, xs[k]);
    var m :| 0 <= m < |ys| && ys[m] == xs[k];
    AddrUnique(c, ys, k, m);
  }

  /** A free block ends where a used block or the heap end begins, in both chains. */
  lemma {:induction false} FreeNoShorter(c: Config, xs: seq<Block>, ys: seq<Block>, k: nat)
    requires Inv(c, xs) && Inv(c, ys) && Live(xs) == Live(ys)
    requires k < |xs| && k < |ys| && xs[k].addr == ys[k].addr && !xs[k].used
    ensures ys[k].end <= xs[k].end
  {
    if xs[k].end < ys[k].end {
      assert BlockOk(c, xs[k]) && BlockOk(c, ys[k]);
      assert xs[k].end != xs[|xs| - 1].end;
      var next := xs[k + 1];
      assert next.used && next.addr == xs[k].end;
      LiveMember(xs, 0, |xs|, next);
      LiveMember(ys, 0, |ys|, next);
      var m :| 0 <= m < |ys| && ys[m] == next;
      assert BlockOk(c, next);
      if m < k { Ordered(c, ys, m, k); } else if k < m { Ordered(c, ys, k, m); }
    }
  }

  /** The whole chain, hence every header, lfree and the statistics, is determined by the used blocks. */
  lemma {:induction false} ChainDeterminedByLive(c: Config, xs: seq<Block>, ys: seq<Block>)
    requires Inv(c, xs) && Inv(c, ys) && Live(xs) == Live(ys)
    ensures xs == ys
  {
    forall k | 0 <= k < |xs| ensures k < |ys| && xs[k] == ys[k] { SameBlock(c, xs, ys, k); }
    SameBlock(c, xs, ys, |xs| - 1);
    SameBlock(c, ys, xs, |ys| - 1);
  }

  /** No history: two runs that leave the same blocks in use leave the same heap. */
  lemma {:induction false} RunsWithSameLiveBlocksAgree(c: Config, xs: seq<Call>, ys: seq<Call>)
    requires ValidConfig(c) && AlignedConfig(c) && Proper(c, xs) && Proper(c, ys)
    requires Live(Run(c, xs)) == Live(Run(c, ys))
    ensures Run(c, xs) == Run(c, ys)
  {
    RunKeepsInv(c, xs);
    RunKeepsInv(c, ys);
    ChainDeterminedByLive(c, Run(c, xs), Run(c, ys));
  }

  // ----- what a caller is given -----

  /** mem_malloc fails exactly when the request is empty or refused, or no free block is large enough. */
  lemma {:induction false} MallocFailsIff(c: Config, bs: seq<Block>, n: nat, size: Option<int>)
    requires ValidConfig(c) && size == RequestSize(c, n)
    ensures MallocResult(c, bs, n) == None <==>
      n == 0 || size == None || forall k :: 0 <= k < |bs| ==> !Fits(c, bs[k], size.value)
  {
  }

  /** b' is b cut down to exactly size bytes, or all of b if the rest would be too small for a block. */
  predicate CutTo(c: Config, b: Block, b': Block, size: int) {
    Room(c, b') == size || (b'.end == b.end && size < Room(c, b') < size + c.headerSize + c.minSize)
  }

  /** Otherwise it gives the lowest such block, cut down unless the rest would be too small for a block. */
  lemma {:induction false} MallocGives(c: Config, bs: seq<Block>, n: nat)
    requires Inv(c, bs) && AlignedConfig(c) && n < c.modulus && MallocResult(c, bs, n).Some?
    ensures RequestSize(c, n).Some?
    ensures var ns, s, p := MallocStep(c, bs, n), RequestSize(c, n).value, MallocResult(c, bs, n).value;
      var k := Owner(c, ns, p, 0);
      && k < |ns| && k < |bs| && ns[k].addr == bs[k].addr && Fits(c, bs[k], s)
      && (forall j :: 0 <= j < k ==> !Fits(c, bs[j], s))
      && Live(ns) == Live(bs) + {ns[k]} && CutTo(c, bs[k], ns[k], s)
  {
    RequestSizeExact(c, n);
    var s := RequestSize(c, n).value;
    AllocGives(c, bs, FirstFit(c, bs, s, 0), s);
  }

  lemma {:induction false} AllocGives(c: Config, bs: seq<Block>, i: nat, size: int)
    requires Inv(c, bs) && i < |bs| && Fits(c, bs[i], size) && c.minSize <= size
    ensures var ns := AllocAt(c, bs, i, size);
      && Owner(c, ns, bs[i].addr + c.headerSize, 0) == i < |ns| && ns[i].addr == bs[i].addr
      && Live(ns) == Live(bs) + {ns[i]} && CutTo(c, bs[i], ns[i], size)
  {
    AllocAtFront(c, bs, i, size);
    AllocEffect(c, bs, i, size);
    AllocKeepsInv(c, bs, i, size);
    OwnerIs(c, AllocAt(c, bs, i, size), i);
  }

  /** mem_trim of an owned pointer shrinks its block as far as it can, and no other. */
  lemma {:induction false} TrimGives(c: Config, bs: seq<Block>, p: int, n: nat)
    requires Inv(c, bs) && AlignedConfig(c) && n < c.modulus && RequestSize(c, n).Some? && !Outside(c, p)
    requires Owner(c, bs, p, 0) < |bs| && RequestSize(c, n).value <= Room(c, bs[Owner(c, bs, p, 0)])
    ensures TrimmedTo(c, bs, TrimStep(c, bs, p, n), Owner(c, bs, p, 0), RequestSize(c, n).value)
  {
    RequestSizeExact(c, n);
    var i, k := Owner(c, bs, p, 0), Named(c, bs, p, 0);
    if i != k { AddrUnique(c, bs, i, k); }
    TrimCuts(c, bs, i, RequestSize(c, n).value);
  }

  // ----- malloc, then free -----

  /** Freeing what mem_malloc just returned restores the whole chain. */
  lemma {:induction false} MallocFreeRestores(c: Config, bs: seq<Block>, n: nat, size: int, i: nat)
    requires Inv(c, bs) && AlignedConfig(c) && 0 < n < c.modulus
    requires RequestSize(c, n) == Some(size) && i == FirstFit(c, bs, size, 0) && i < |bs|
    ensures FreeStep(c, MallocStep(c, bs, n), bs[i].addr + c.headerSize) == bs
  {
    assert MallocStep(c, bs, n) == AllocAt(c, bs, i, size);
    assert c.minSize <= size by { RequestSizeExact(c, n); }
    FreeStepOfAlloc(c, bs, i, size);
  }

  lemma {:induction false} FreeStepOfAlloc(c: Config, bs: seq<Block>, i: nat, size: int)
    requires Inv(c, bs) && i < |bs| && Fits(c, bs[i], size) && c.minSize <= size
    ensures FreeStep(c, AllocAt(c, bs, i, size), bs[i].addr + c.headerSize) == bs
  {
    var ns := AllocAt(c, bs, i, size);
    assert i < |ns| && Owner(c, ns, bs[i].addr + c.headerSize, 0) == i by {
      AllocAtFront(c, bs, i, size);
      AllocKeepsInv(c, bs, i, size);
      OwnerIs(c, ns, i);
    }
    AllocFreeRestores(c, bs, i, size);
  }

  lemma {:induction false} AllocAtFront(c: Config, bs: seq<Block>, i: nat, size: int)
    requires i < |bs|
    ensures i < |AllocAt(c, bs, i, size)| && AllocAt(c, bs, i, size)[i] == Carved(c, bs[i], size)
  {
  }

  lemma {:induction false} OwnerIs(c: Config, bs: seq<Block>, i: nat)
    requires Inv(c, bs) && i < |bs| && bs[i].used
    ensures Owner(c, bs, bs[i].addr + c.headerSize, 0) == i
  {
    AddrUnique(c, bs, i, Owner(c, bs, bs[i].addr + c.headerSize, 0));
  }

  lemma {:induction false} AllocFreeRestores(c: Config, bs: seq<Block>, i: nat, size: int)
    requires Inv(c, bs) && i < |bs| && Fits(c, bs[i], size) && c.minSize <= size
    ensures i < |AllocAt(c, bs, i, size)| && FreeAt(AllocAt(c, bs, i, size), i) == bs
  {
    var b := Carved(c, bs[i], size);
    var ns := AllocAt(c, bs, i, size);
    AllocAtFront(c, bs, i, size);
    AllocKeepsInv(c, bs, i, size);
    assert Live(FreeAt(ns, i)) == Live(bs) by {
      AllocEffect(c, bs, i, size);
      FreeEffect(c, ns, i);
      NotLiveYet(c, bs, i, b);
    }
    FreeKeepsInv(c, ns, i);
    ChainDeterminedByLive(c, FreeAt(ns, i), bs);
  }

  lemma {:induction false} NotLiveYet(c: Config, bs: seq<Block>, i: nat, b: Block)
    requires Inv(c, bs) && i < |bs| && !bs[i].used && b.addr == bs[i].addr && b.used
    ensures b !in Live(bs)
  {
    LiveMember(bs, 0, |bs|, b);
    if b in Live(bs) {
      var k :| 0 <= k < |bs| && bs[k] == b;
      AddrUnique(c, bs, i, k);
    }
  }

  /** A pointer that was freed is not live any more: freeing it again is illegal. */
  lemma {:induction false} FreedNotLive(c: Config, bs: seq<Block>, p: int)
    requires Inv(c, bs)
    ensures var ns := FreeStep(c, bs, p); Owner(c, ns, p, 0) == |ns|
  {
    var i, ns := Owner(c, bs, p, 0), FreeStep(c, bs, p);
    var k := Owner(c, ns, p, 0);
    if i < |bs| && k < |ns| {
      FreeEffect(c, bs, i);
      LiveMember(ns, 0, |ns|, ns[k]);
      LiveMember(bs, 0, |bs|, ns[k]);
      var m :| 0 <= m < |bs| && bs[m] == ns[k];
      AddrUnique(c, bs, m, i);
    }
  }

  // ----- mem_trim at its limits, on a heap of 200 bytes -----

  const SMALL := Config(200, 8, 12, 0x1_0000)

  lemma {:induction false} RunSnoc(c: Config, calls: seq<Call>, call: Call)
    requires ValidConfig(c)
    ensures Run(c, calls + [call]) == Step(c, Run(c, calls), call)
    ensures Proper(c, calls + [call]) <==>
      Proper(c, calls) && SizeFits(c, call) && Plain(c, Run(c, calls), call) && !CutsFreed(c, Run(c, calls), call)
  {
    var all := calls + [call];
    assert all[..|all| - 1] == calls && all[|all| - 1] == call;
  }

  lemma {:induction false} FirstMalloc()
    ensures Step(SMALL, Initial(SMALL), Malloc(40)) == [Block(0, 48, true), Block(48, 200, false)]
  {
    assert FirstFit(SMALL, Initial(SMALL), 40, 0) == 0;
  }

  lemma {:induction false} SecondMalloc()
    ensures var bs := [Block(0, 48, true), Block(48, 200, false)];
      Step(SMALL, bs, Malloc(20)) == [bs[0], Block(48, 76, true), Block(76, 200, false)]
  {
    var bs := [Block(0, 48, true), Block(48, 200, false)];
    assert FirstFit(SMALL, bs, 20, 1) == 1;
  }

  lemma {:induction false} FreeOfFirst()
    ensures var bs := [Block(0, 48, true), Block(48, 76, true), Block(76, 200, false)];
      Step(SMALL, bs, Free(8)) == [Block(0, 48, false), bs[1], bs[2]]
  {
    var bs := [Block(0, 48, true), Block(48, 76, true), Block(76, 200, false)];
    assert Owner(SMALL, bs, 8, 0) == 0;
  }

  lemma {:induction false} TrimOfFirst()
    ensures var bs := [Block(0, 48, false), Block(48, 76, true), Block(76, 200, false)];
      && CutsFreed(SMALL, bs, Trim(8, 12))
      && Step(SMALL, bs, Trim(8, 12)) == [Block(0, 20, false), Block(20, 48, false), bs[1], bs[2]]
  {
    var bs := [Block(0, 48, false), Block(48, 76, true), Block(76, 200, false)];
    assert Named(SMALL, bs, 8, 0) == 0 && RequestSize(SMALL, 12) == Some(12);
  }

  /** The four calls: malloc, malloc, free of the first block, trim of the pointer just freed. */
  function Calls(k: nat): seq<Call>
    requires k <= 4
  {
    [Malloc(40), Malloc(20), Free(8), Trim(8, 12)][..k]
  }

  lemma {:induction false} CallsRun(k: nat, bs: seq<Block>, ns: seq<Block>)
    requires 0 < k <= 4 && Run(SMALL, Calls(k - 1)) == bs && Step(SMALL, bs, Calls(4)[k - 1]) == ns
    ensures Run(SMALL, Calls(k)) == ns
  {
    RunSnoc(SMALL, Calls(k - 1), Calls(4)[k - 1]);
    assert Calls(k) == Calls(k - 1) + [Calls(4)[k - 1]];
  }

  /** Trimming a pointer that was freed leaves two free neighbours. */
  lemma {:induction false} TrimOfFreed()
    ensures CutsFreed(SMALL, Run(SMALL, Calls(3)), Trim(8, 12))
    ensures Run(SMALL, Calls(4))
      == [Block(0, 20, false), Block(20, 48, false), Block(48, 76, true), Block(76, 200, false)]
    ensures !Coalesced(Run(SMALL, Calls(4)))
  {
    var b0, b1 := Initial(SMALL), [Block(0, 48, true), Block(48, 200, false)];
    var b2 := [Block(0, 48, true), Block(48, 76, true), Block(76, 200, false)];
    var b3 := [Block(0, 48, false), Block(48, 76, true), Block(76, 200, false)];
    var b4 := [Block(0, 20, false), Block(20, 48, false), Block(48, 76, true), Block(76, 200, false)];
    FirstMalloc();
    CallsRun(1, b0, b1);
    SecondMalloc();
    CallsRun(2, b1, b2);
    FreeOfFirst();
    CallsRun(3, b2, b3);
    TrimOfFirst();
    CallsRun(4, b3, b4);
    assert !b4[0].used && !b4[1].used;
  }

  /** One malloc that takes the whole heap. */
  lemma {:induction false} WholeHeap()
    ensures Run(SMALL, [Malloc(180)]) == [Block(0, 200, true)]
  {
    RunSnoc(SMALL, [], Malloc(180));
    assert [] + [Malloc(180)] == [Malloc(180)];
    assert FirstFit(SMALL, Initial(SMALL), 180, 0) == 0;
  }
}
