/** Callers of the heap in memory: any calls from mem_init on, and a trim through a header that has left the chain. */
module HeapCalls {
  import opened Options
  import opened HeapChain
  import opened HeapRuns
  import opened HeapMemory

  /** The pointer mem_trim is given is outside the heap or has a header in front of it that was ever written. */
  predicate Headed(c: Config, ram: seq<Header>, call: Call)
    requires |ram| == c.memSize + 1
  {
    call.Trim? ==> Outside(c, call.p) || Written(c, ram, call.p - c.headerSize)
  }

  /** mem_trim would cut something, and the flag it does not look at says that nobody uses it. */
  predicate CutsUnused(c: Config, ram: seq<Header>, call: Call)
    requires ValidConfig(c) && |ram| == c.memSize + 1 && Headed(c, ram, call)
  {
    && call.Trim? && !Outside(c, call.p) && RequestSize(c, call.n).Some?
    && Cuts(c, ram, call.p - c.headerSize, RequestSize(c, call.n).value) && !ram[call.p - c.headerSize].used
  }

  /** The used flag tells whether a header, in the chain or not, is that of a block in use. */
  lemma {:induction false} UsedIffOwned(c: Config, ram: seq<Header>, bs: seq<Block>, ptr: int)
    requires ValidConfig(c) && Tiled(c, bs) && Linked(c, ram, bs) && 0 <= ptr < c.memSize
    ensures ram[ptr].used <==> Owner(c, bs, ptr + c.headerSize, 0) < |bs|
  {
    if ram[ptr].used {
      assert IsHead(bs, ptr);
      var i :| 0 <= i < |bs| && bs[i].addr == ptr;
      assert Says(ram[bs[i].addr], bs[i]);
    }
    var k := Owner(c, bs, ptr + c.headerSize, 0);
    if k < |bs| { assert Says(ram[bs[k].addr], bs[k]); }
  }

  lemma {:induction false} DeadIffUnused(c: Config, ram: seq<Header>, bs: seq<Block>, p: int, n: nat)
    requires ValidConfig(c) && Tiled(c, bs) && Linked(c, ram, bs) && Headed(c, ram, Trim(p, n))
    ensures TrimsDead(c, ram, bs, p, n) <==> CutsUnused(c, ram, Trim(p, n))
  {
    if !Outside(c, p) { UsedIffOwned(c, ram, bs, p - c.headerSize); }
  }

  /** One call: the heap stays in order if and only if it does not cut what is not in use. */
  method Perform(h: Heap, call: Call)
    requires h.Valid() && SizeFits(h.c, call) && Headed(h.c, h.ram[..], call)
    modifies h, h.ram
    ensures h.blocks == Step(h.c, old(h.blocks), call)
    ensures h.Valid() <==> !CutsUnused(h.c, old(h.ram[..]), call)
    ensures !h.Valid() ==> forall bs :: !Settled(h.c, h.ram[..], h.lfree, h.used, bs)
  {
    match call
    case Malloc(n) => var p := h.Malloc(n);
    case Free(p) => h.Free(Some(p));
    case Trim(p, n) => PerformTrim(h, p, n);
  }

  method PerformTrim(h: Heap, p: int, n: nat)
    requires h.Valid() && n < h.c.modulus && Headed(h.c, h.ram[..], Trim(p, n))
    modifies h, h.ram
    ensures h.blocks == TrimStep(h.c, old(h.blocks), p, n)
    ensures h.Valid() <==> !CutsUnused(h.c, old(h.ram[..]), Trim(p, n))
    ensures !h.Valid() ==> forall bs :: !Settled(h.c, h.ram[..], h.lfree, h.used, bs)
  {
    DeadIffUnused(h.c, h.ram[..], h.blocks, p, n);
    var r, asserted := h.Trim(p, n);
  }

  lemma {:induction false} NextRun(c: Config, calls: seq<Call>, k: nat)
    requires ValidConfig(c) && k < |calls|
    ensures Run(c, calls[..k + 1]) == Step(c, Run(c, calls[..k]), calls[k])
  {
    RunSnoc(c, calls[..k], calls[k]);
    assert calls[..k + 1] == calls[..k] + [calls[k]];
  }

  /**
   Any calls on a new heap: it stays in order up to the first mem_trim that cuts something not in use, which breaks it.
   The run stops there, or before a mem_trim of a pointer without a header.
   */
  method Drive(c: Config, calls: seq<Call>) returns (h: Heap, done: nat, broken: bool)
    requires ValidConfig(c) && AlignedConfig(c) && forall i :: 0 <= i < |calls| ==> SizeFits(c, calls[i])
    ensures fresh(h) && fresh(h.ram) && h.c == c && done <= |calls| && h.ram.Length == c.memSize + 1
    ensures h.blocks == Run(c, calls[..done]) && (h.Valid() <==> !broken)
    ensures !broken && done < |calls| ==> !Headed(c, h.ram[..], calls[done])
    ensures broken ==> 0 < done && calls[done - 1].Trim? && forall bs :: !Settled(c, h.ram[..], h.lfree, h.used, bs)
  {
    h := new Heap(c);
    done, broken := 0, false;
    while done < |calls| && !broken
      invariant done <= |calls| && fresh(h) && fresh(h.ram) && h.c == c && h.ram.Length == c.memSize + 1
      invariant h.blocks == Run(c, calls[..done]) && (h.Valid() <==> !broken)
      invariant broken ==> 0 < done && calls[done - 1].Trim? && forall bs :: !Settled(c, h.ram[..], h.lfree, h.used, bs)
      decreases |calls| - done
    {
      var call := calls[done];
      if !Headed(c, h.ram[..], call) {
        return;
      }
      broken := CutsUnused(c, h.ram[..], call);
      NextRun(c, calls, done);
      Perform(h, call);
      done := done + 1;
    }
  }

  // ----- a trim through a header that has left the chain -----

  const FULL := [Block(0, 48, true), Block(48, 116, true), Block(116, 144, true), Block(144, 200, false)]
  const MERGED := [Block(0, 116, false), Block(116, 144, true), Block(144, 200, false)]

  lemma {:induction false} ThreeMallocs()
    ensures var b1, b2 := [Block(0, 48, true), Block(48, 200, false)],
                          [Block(0, 48, true), Block(48, 116, true), Block(116, 200, false)];
      && MallocStep(SMALL, Initial(SMALL), 40) == b1 && MallocResult(SMALL, Initial(SMALL), 40) == Some(8)
      && MallocStep(SMALL, b1, 60) == b2 && MallocResult(SMALL, b1, 60) == Some(56)
      && MallocStep(SMALL, b2, 20) == FULL
  {
    FirstMalloc();
    var b1, b2 := [Block(0, 48, true), Block(48, 200, false)],
                  [Block(0, 48, true), Block(48, 116, true), Block(116, 200, false)];
    assert FirstFit(SMALL, b1, 60, 1) == 1;
    assert FirstFit(SMALL, b2, 20, 2) == 2;
    assert FirstFit(SMALL, b2, 20, 1) == 2;
  }

  lemma {:induction false} TwoFrees()
    ensures var b := [Block(0, 48, false), FULL[1], FULL[2], FULL[3]];
      && FreeStep(SMALL, FULL, 8) == b && Owner(SMALL, b, 56, 0) == 1 && b[StretchEnd(b, 1) - 1].end == 116
      && FreeStep(SMALL, b, 56) == MERGED
  {
    var b := [Block(0, 48, false), FULL[1], FULL[2], FULL[3]];
    assert Owner(SMALL, FULL, 8, 0) == 0;
    assert Owner(SMALL, b, 56, 1) == 1;
  }

  method Fill() returns (h: Heap, p: Option<int>, q: Option<int>)
    ensures fresh(h) && fresh(h.ram) && h.c == SMALL && h.Valid() && h.blocks == FULL && p == Some(8) && q == Some(56)
  {
    ThreeMallocs();
    h := new Heap(SMALL);
    p := h.Malloc(40);
    q := h.Malloc(60);
    var r := h.Malloc(20);
  }

  lemma {:induction false} CutsMerged(ram: seq<Header>)
    requires Linked(SMALL, ram, MERGED) && ram[48].next == 116
    ensures Written(SMALL, ram, 48) && TrimsDead(SMALL, ram, MERGED, 56, 12)
  {
    assert Says(ram[MERGED[1].addr], MERGED[1]);
    assert Owner(SMALL, MERGED, 56, 0) == 3 && RequestSize(SMALL, 12) == Some(12);
  }

  lemma {:induction false} StaysMerged()
    ensures TrimStep(SMALL, MERGED, 56, 12) == MERGED
  {
    assert Named(SMALL, MERGED, 56, 0) == 3;
  }

  /**
   On a heap of 200 bytes: three blocks, of which the first and then the second are freed.  The second free merges
   backwards and leaves a header at 48 that still reaches to 116.  Trimming the second pointer cuts through it.
   */
  method TrimOfMerged() returns (h: Heap)
    ensures fresh(h) && h.c == SMALL && h.blocks == MERGED && !h.Valid()
    ensures forall bs :: !Settled(SMALL, h.ram[..], h.lfree, h.used, bs)
  {
    var p, q;
    h, p, q := Fill();
    TwoFrees();
    h.Free(p);
    h.Free(q);
    CutsMerged(h.ram[..]);
    StaysMerged();
    var t, asserted := h.Trim(q.value, 12);
  }
}
