/**
 DMA buffers as their owners know them: the lines each allocation handed out, until the pointer it returned is freed.
 CyU3PDmaBufferFree also takes a pointer into the middle of a buffer; what becomes of the lines behind it.
 */
module DmaOwners {
  import opened Options
  import opened DmaPool

  /** given are the buffers as they were handed out, pool.live what is left of them in the bitmap. */
  datatype Held = Held(pool: Pool, given: set<Buffer>)

  ghost function Given(h: Held, call: Call): set<Buffer>
    requires 32 * h.pool.searchPos <= |h.pool.bits|
  {
    match call
    case Alloc(size) =>
      var found := Search(h.pool.bits, h.pool.searchPos, Lines(size) + 1);
      if found.Some? then h.given + {Carved(found.value, size)} else h.given
    case Free(line) => set g | g in h.given && g.start != line
  }

  ghost function Called(h: Held, call: Call): Held
    requires 32 * h.pool.searchPos <= |h.pool.bits| && Allowed(h.pool, call)
  {
    Held(Step(h.pool, call), Given(h, call))
  }

  /** b is what is left of g. */
  predicate LeftOf(b: Buffer, g: Buffer) {
    b.start == g.start && b.lines <= g.lines
  }

  predicate Covers(g: Buffer, i: int) {
    g.start <= i < g.start + g.lines
  }

  ghost predicate AllApart(given: set<Buffer>) {
    forall g, d :: g in given && d in given && g != d ==> Apart(g, d)
  }

  /** Every buffer handed out has something left. */
  ghost predicate Paired(live: set<Buffer>, given: set<Buffer>) {
    && (forall g :: g in given ==> exists b :: b in live && LeftOf(b, g))
    && (forall g, d :: g in given && d in given && g.start == d.start ==> g == d)
  }

  ghost predicate Ledger(h: Held) {
    Inv(h.pool) && Paired(h.pool.live, h.given)
  }

  /** Line i was handed out with g, and is not part of what is left of it. */
  ghost predicate Away(h: Held, g: Buffer, i: int) {
    g in h.given && exists b :: b in h.pool.live && LeftOf(b, g) && b.start + b.lines <= i < g.start + g.lines
  }

  ghost predicate GivenAway(h: Held, i: int) {
    exists g :: Away(h, g, i)
  }

  /** The call frees a line in the middle of what is left of a buffer. */
  ghost predicate FreesInside(h: Held, call: Call) {
    call.Free? && exists b :: b in h.pool.live && Marks(b, call.line) && b.start < call.line
  }

  /** The call allocates a line that was given away. */
  ghost predicate TakesGiven(h: Held, call: Call)
    requires 32 * h.pool.searchPos <= |h.pool.bits|
  {
    call.Alloc? &&
    var found := Search(h.pool.bits, h.pool.searchPos, Lines(call.size) + 1);
    found.Some? && exists i :: Covers(Carved(found.value, call.size), i) && GivenAway(h, i)
  }

  // ----- one call -----

  /** Different live buffers start at different lines. */
  lemma {:induction false} StartsDiffer(p: Pool, b: Buffer, d: Buffer)
    requires Inv(p) && b in p.live && d in p.live && b.start == d.start
    ensures b == d
  {
    assert b == d || Apart(b, d);
  }

  lemma {:induction false} PairedAdd(live: set<Buffer>, given: set<Buffer>, c: Buffer)
    requires Paired(live, given) && forall g :: g in given ==> g.start != c.start
    ensures Paired(live + {c}, given + {c})
  {
    forall g | g in given + {c} ensures exists b :: b in live + {c} && LeftOf(b, g) {
      if g in given {
        var b :| b in live && LeftOf(b, g);
        assert b in live + {c};
      } else {
        assert c in live + {c} && LeftOf(c, g);
      }
    }
  }

  /** No buffer handed out starts where a new one does. */
  lemma {:induction false} NewStart(h: Held, z: nat, size: nat, g: Buffer)
    requires Ledger(h) && g in h.given && z + Lines(size) + 1 <= |h.pool.bits| && RunAt(h.pool.bits, z, Lines(size) + 1)
    ensures g.start != Carved(z, size).start
  {
    var b :| b in h.pool.live && LeftOf(b, g);
    RunApart(h.pool, z, Lines(size), b);
  }

  lemma {:induction false} NewStarts(h: Held, z: nat, size: nat)
    requires Ledger(h) && z + Lines(size) + 1 <= |h.pool.bits| && RunAt(h.pool.bits, z, Lines(size) + 1)
    ensures forall g :: g in h.given ==> g.start != Carved(z, size).start
  {
    forall g | g in h.given ensures g.start != Carved(z, size).start { NewStart(h, z, size, g); }
  }

  lemma {:induction false} AllocEffect(h: Held, size: nat, z: nat)
    requires Inv(h.pool) && Search(h.pool.bits, h.pool.searchPos, Lines(size) + 1) == Some(z)
    ensures Called(h, Alloc(size)).pool.live == h.pool.live + {Carved(z, size)}
    ensures Called(h, Alloc(size)).given == h.given + {Carved(z, size)}
    ensures Inv(Called(h, Alloc(size)).pool)
  {
    AllocKeepsInv(h.pool, size);
  }

  lemma {:induction false} AllocKeepsLedger(h: Held, size: nat)
    requires Ledger(h)
    ensures Ledger(Called(h, Alloc(size)))
  {
    var found := Search(h.pool.bits, h.pool.searchPos, Lines(size) + 1);
    if found.Some? {
      AllocEffect(h, size, found.value);
      NewStarts(h, found.value, size);
      PairedAdd(h.pool.live, h.given, Carved(found.value, size));
    }
  }

  /** What is left of the buffers after a free at a marked line. */
  lemma {:induction false} FreeKeepsLedger(h: Held, line: nat)
    requires Ledger(h) && line < |h.pool.bits|
    ensures Ledger(Called(h, Free(line)))
  {
    StepKeepsInv(h.pool, Free(line));
    var h' := Called(h, Free(line));
    forall g | g in h'.given ensures exists b :: b in h'.pool.live && LeftOf(b, g) {
      var b :| b in h.pool.live && LeftOf(b, g);
      assert b in h'.pool.live || Shortened(b, line) in h'.pool.live;
    }
  }

  lemma {:induction false} KeepsLedger(h: Held, call: Call)
    requires Ledger(h) && Allowed(h.pool, call)
    ensures Ledger(Called(h, call)) && |Called(h, call).pool.bits| == |h.pool.bits|
  {
    StepKeepsInv(h.pool, call);
    match call
    case Alloc(size) => AllocKeepsLedger(h, size);
    case Free(line) => FreeKeepsLedger(h, line);
  }

  /** A new buffer is apart from one handed out before if and only if none of its lines was given away from that one. */
  lemma {:induction false} ApartIff(h: Held, z: nat, size: nat, g: Buffer)
    requires Ledger(h) && g in h.given && z + Lines(size) + 1 <= |h.pool.bits| && RunAt(h.pool.bits, z, Lines(size) + 1)
    ensures Apart(g, Carved(z, size)) <==> !exists i :: Covers(Carved(z, size), i) && Away(h, g, i)
  {
    var c := Carved(z, size);
    var b :| b in h.pool.live && LeftOf(b, g);
    RunApart(h.pool, z, Lines(size), b);
    forall i | Covers(c, i) && Away(h, g, i) ensures !Apart(g, c) {
      assert Covers(g, i);
    }
    if !Apart(g, c) {
      var i := if c.start <= b.start + b.lines then b.start + b.lines else c.start;
      assert Covers(c, i) && Away(h, g, i);
    }
  }

  lemma {:induction false} AllApartAdd(given: set<Buffer>, c: Buffer)
    requires AllApart(given) && c !in given
    ensures AllApart(given + {c}) <==> forall g :: g in given ==> Apart(g, c)
  {
    if AllApart(given + {c}) {
      forall g | g in given ensures Apart(g, c) { assert g in given + {c} && c in given + {c}; }
    }
  }

  lemma {:induction false} NoneTakenIff(h: Held, z: nat, size: nat)
    requires Ledger(h) && z + Lines(size) + 1 <= |h.pool.bits| && RunAt(h.pool.bits, z, Lines(size) + 1)
    ensures (forall g :: g in h.given ==> Apart(g, Carved(z, size))) <==>
      !exists i :: Covers(Carved(z, size), i) && GivenAway(h, i)
  {
    var c := Carved(z, size);
    forall g | g in h.given && !Apart(g, c) ensures exists i :: Covers(c, i) && GivenAway(h, i) {
      ApartIff(h, z, size, g);
      var i :| Covers(c, i) && Away(h, g, i);
      assert GivenAway(h, i);
    }
    forall i | Covers(c, i) && GivenAway(h, i) ensures exists g :: g in h.given && !Apart(g, c) {
      var g :| Away(h, g, i);
      ApartIff(h, z, size, g);
    }
  }

  /** Buffers as handed out stay disjoint if and only if the call does not allocate lines that were given away. */
  lemma {:induction false} CallKeepsApartIff(h: Held, call: Call)
    requires Ledger(h) && AllApart(h.given) && Allowed(h.pool, call)
    ensures AllApart(Called(h, call).given) <==> !TakesGiven(h, call)
  {
    if call.Alloc? {
      var found := Search(h.pool.bits, h.pool.searchPos, Lines(call.size) + 1);
      if found.Some? {
        var c := Carved(found.value, call.size);
        NoneTakenIff(h, found.value, call.size);
        if c in h.given { NewStart(h, found.value, call.size, c); }
        AllApartAdd(h.given, c);
      }
    }
  }

  /** Exactly the lines behind a freed one, up to the end of what was left of its buffer, are given away by the free. */
  lemma {:induction false} FreeInsideGivesAway(h: Held, b: Buffer, g: Buffer, line: nat, i: int)
    requires Ledger(h) && b in h.pool.live && g in h.given && LeftOf(b, g) && Marks(b, line) && b.start < line
    ensures Away(Called(h, Free(line)), g, i) <==> Away(h, g, i) || line < i < b.start + b.lines
  {
    var h' := Called(h, Free(line));
    FreeInsideShortens(h.pool, b, line);
    StepKeepsInv(h.pool, Free(line));
    var d := Shortened(b, line);
    AwayIs(h, g, b, i);
    AwayIs(h', g, d, i);
  }

  lemma {:induction false} AwayIs(h: Held, g: Buffer, b: Buffer, i: int)
    requires Ledger(h) && g in h.given && b in h.pool.live && LeftOf(b, g)
    ensures Away(h, g, i) <==> b.start + b.lines <= i < g.start + g.lines
  {
    if Away(h, g, i) {
      var d :| d in h.pool.live && LeftOf(d, g) && d.start + d.lines <= i < g.start + g.lines;
      StartsDiffer(h.pool, b, d);
    }
  }

  /** No other call gives lines away. */
  lemma {:induction false} OthersGiveNothing(h: Held, call: Call, g: Buffer, i: int)
    requires Ledger(h) && Allowed(h.pool, call) && !FreesInside(h, call)
    ensures Away(Called(h, call), g, i) ==> Away(h, g, i)
  {
    var h' := Called(h, call);
    KeepsLedger(h, call);
    if g in h'.given && g !in h.given {
      AwayIs(h', g, g, i);
    } else if g in h'.given {
      var b :| b in h.pool.live && LeftOf(b, g);
      assert b in h'.pool.live;
      AwayIs(h, g, b, i);
      AwayIs(h', g, b, i);
    }
  }

  // ----- runs -----

  /** What is handed out after the given calls on a fresh region of n lines; None if some call was not allowed. */
  ghost function HeldAfter(n: nat, calls: seq<Call>): Option<Held>
    decreases |calls|
  {
    if calls == [] then Some(Held(Pool(seq(n, _ => false), 0, {}), {}))
    else
      var h, call := HeldAfter(n, calls[..|calls| - 1]), calls[|calls| - 1];
      if h.Some? && 32 * h.value.pool.searchPos <= |h.value.pool.bits| && Allowed(h.value.pool, call)
      then Some(Called(h.value, call)) else None
  }

  lemma {:induction false} RunKeepsLedger(n: nat, calls: seq<Call>)
    requires HeldAfter(n, calls).Some?
    ensures Ledger(HeldAfter(n, calls).value) && |HeldAfter(n, calls).value.pool.bits| == n
    decreases |calls|
  {
    if calls != [] {
      RunKeepsLedger(n, calls[..|calls| - 1]);
      KeepsLedger(HeldAfter(n, calls[..|calls| - 1]).value, calls[|calls| - 1]);
    }
  }

  /** The pool is that of the run. */
  lemma {:induction false} SamePool(n: nat, calls: seq<Call>)
    ensures HeldAfter(n, calls).Some? <==> Run(n, calls).Some?
    ensures Run(n, calls).Some? ==> HeldAfter(n, calls).value.pool == Run(n, calls).value
    decreases |calls|
  {
    if calls != [] { SamePool(n, calls[..|calls| - 1]); }
  }

  /** The buffers handed out were disjoint after every call. */
  ghost predicate ApartAlong(n: nat, calls: seq<Call>)
    requires HeldAfter(n, calls).Some?
    decreases |calls|
  {
    AllApart(HeldAfter(n, calls).value.given) && (calls == [] || ApartAlong(n, calls[..|calls| - 1]))
  }

  /** No call allocated lines that were given away. */
  ghost predicate NoneTaken(n: nat, calls: seq<Call>)
    requires HeldAfter(n, calls).Some?
    decreases |calls|
  {
    calls == [] ||
    (&& NoneTaken(n, calls[..|calls| - 1])
     && !TakesGiven(HeldAfter(n, calls[..|calls| - 1]).value, calls[|calls| - 1]))
  }

  /**
   Throughout a run every owner keeps its lines to itself if and only if no free in the middle of a buffer is followed
   by an allocation of the lines behind.
   */
  lemma {:induction false} RunApartIff(n: nat, calls: seq<Call>)
    requires HeldAfter(n, calls).Some?
    ensures ApartAlong(n, calls) <==> NoneTaken(n, calls)
    decreases |calls|
  {
    if calls != [] {
      var before := calls[..|calls| - 1];
      RunApartIff(n, before);
      RunKeepsLedger(n, before);
      if ApartAlong(n, before) { CallKeepsApartIff(HeldAfter(n, before).value, calls[|calls| - 1]); }
    }
  }

  /** No call freed the middle of a buffer. */
  ghost predicate NoneInside(n: nat, calls: seq<Call>)
    requires HeldAfter(n, calls).Some?
    decreases |calls|
  {
    calls == [] ||
    (&& NoneInside(n, calls[..|calls| - 1])
     && !FreesInside(HeldAfter(n, calls[..|calls| - 1]).value, calls[|calls| - 1]))
  }

  lemma {:induction false} CallKeepsWhole(h: Held, call: Call)
    requires Ledger(h) && Allowed(h.pool, call) && !FreesInside(h, call) && h.given == h.pool.live
    ensures Called(h, call).given == Called(h, call).pool.live
  {
    if call.Free? {
      forall b | b in h.pool.live ensures Marks(b, call.line) <==> b.start == call.line {
        assert 2 <= b.lines;
      }
    }
  }

  /** Without such frees what is handed out is what is live, and stays disjoint. */
  lemma {:induction false} WholeBuffersApart(n: nat, calls: seq<Call>)
    requires HeldAfter(n, calls).Some? && NoneInside(n, calls)
    ensures HeldAfter(n, calls).value.given == HeldAfter(n, calls).value.pool.live && ApartAlong(n, calls)
    decreases |calls|
  {
    if calls != [] {
      var before := calls[..|calls| - 1];
      WholeBuffersApart(n, before);
      RunKeepsLedger(n, before);
      RunKeepsLedger(n, calls);
      CallKeepsWhole(HeldAfter(n, before).value, calls[|calls| - 1]);
    }
  }

  // ----- a run that hands lines out twice -----

  lemma {:induction false} NextHeld(n: nat, calls: seq<Call>, call: Call)
    requires HeldAfter(n, calls).Some? && Allowed(HeldAfter(n, calls).value.pool, call)
    requires 32 * HeldAfter(n, calls).value.pool.searchPos <= |HeldAfter(n, calls).value.pool.bits|
    ensures HeldAfter(n, calls + [call]) == Some(Called(HeldAfter(n, calls).value, call))
  {
    assert (calls + [call])[..|calls|] == calls;
  }

  const TAKEN := [] + [Alloc(160)]
  const FREED := TAKEN + [Free(2)]
  const TWICE := FREED + [Alloc(64)]

  /** A bitmap of 32 lines with lines 1 to n marked. */
  function Lines32(n: nat): (bits: seq<bool>)
    ensures |bits| == 32
  {
    seq(32, i => 1 <= i <= n)
  }

  lemma {:induction false} GivenIs(h: Held, size: nat, z: nat)
    requires 32 * h.pool.searchPos <= |h.pool.bits|
    requires Search(h.pool.bits, h.pool.searchPos, Lines(size) + 1) == Some(z)
    ensures Called(h, Alloc(size)).given == h.given + {Carved(z, size)}
  {
  }

  lemma {:induction false} HeldAlloc(n: nat, calls: seq<Call>, bits: seq<bool>, size: nat, z: nat)
    requires HeldAfter(n, calls).Some? && Reaches(n, calls, bits, 0) && Search(bits, 0, Lines(size) + 1) == Some(z)
    ensures HeldAfter(n, calls + [Alloc(size)]).Some?
    ensures HeldAfter(n, calls + [Alloc(size)]).value.given == HeldAfter(n, calls).value.given + {Carved(z, size)}
  {
    SamePool(n, calls);
    var h := HeldAfter(n, calls).value;
    assert h.pool.bits == bits && h.pool.searchPos == 0;
    NextHeld(n, calls, Alloc(size));
    GivenIs(h, size, z);
  }

  /** Where len lines are found when lines 1 to m are marked. */
  lemma {:induction false} FoundBehind(m: nat, len: nat, z: nat)
    requires z == (if m == 0 then 0 else m + 1) && 2 <= len && z + len <= 32
    ensures Search(Lines32(m), 0, len) == Some(z)
  {
    var bits := Lines32(m);
    forall y | 0 <= y < z ensures !RunAt(bits, y, len) { assert bits[if y == 0 then 1 else y]; }
    FoundAt(bits, 0, len, z);
  }

  /** Five lines from line 1 on are handed out. */
  lemma {:induction false} FirstTaken()
    ensures Reaches(32, TAKEN, Lines32(4), 0)
    ensures HeldAfter(32, TAKEN).Some? && Buffer(1, 5) in HeldAfter(32, TAKEN).value.given
  {
    var bits := Lines32(0);
    assert bits == seq(32, _ => false);
    FoundBehind(0, Lines(160) + 1, 0);
    AllocAt(32, [], bits, 0, 160, 0);
    assert Filled(bits, 1, 4, true) == Lines32(4);
    HeldAlloc(32, [], bits, 160, 0);
    assert Carved(0, 160) == Buffer(1, 5);
  }

  /** Then line 2 is freed. */
  lemma {:induction false} FreedInMiddle()
    ensures Reaches(32, FREED, Lines32(1), 0)
    ensures HeldAfter(32, FREED).Some? && Buffer(1, 5) in HeldAfter(32, FREED).value.given
  {
    FirstTaken();
    FreeAt(32, TAKEN, Lines32(4), 0, 2, 3);
    assert Filled(Lines32(4), 2, 3, false) == Lines32(1);
    SamePool(32, TAKEN);
    NextHeld(32, TAKEN, Free(2));
  }

  /** Two lines are allocated next, at line 3: both owners have lines 3 and 4. */
  lemma {:induction false} HandedOutTwice()
    ensures var r := HeldAfter(32, TWICE);
      && r.Some? && Buffer(1, 5) in r.value.given && Buffer(3, 2) in r.value.given && !AllApart(r.value.given)
  {
    FreedInMiddle();
    FoundBehind(1, Lines(64) + 1, 2);
    HeldAlloc(32, FREED, Lines32(1), 64, 2);
    assert Carved(2, 64) == Buffer(3, 2);
    assert !Apart(Buffer(1, 5), Buffer(3, 2));
  }
}
