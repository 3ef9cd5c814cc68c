/**
 The DMA buffer heap as a bitmap with one bit per 32-byte cache line (src/cyfx/cyfx_tx.c).

 A buffer of n lines starting at line s marks lines s .. s + n - 2; its last line keeps a 0 bit,
 which is how CyU3PDmaBufferFree finds the end.  No length is stored anywhere.
 */
module DmaPool {
  import opened Options

  predicate Clear(bits: seq<bool>, a: nat, b: nat)
    requires a <= b <= |bits|
  {
    forall i :: a <= i < b ==> !bits[i]
  }

  /** bits with [start, start + n) set to value. */
  function Filled(bits: seq<bool>, start: nat, n: nat, value: bool): (r: seq<bool>)
    requires start + n <= |bits|
    ensures |r| == |bits|
    ensures forall i :: 0 <= i < |bits| ==> r[i] == if start <= i < start + n then value else bits[i]
  {
    seq(|bits|, i requires 0 <= i < |bits| => if start <= i < start + n then value else bits[i])
  }

  /** len clear bits starting at z */
  predicate RunAt(bits: seq<bool>, z: nat, len: nat)
    requires z + len <= |bits|
  {
    Clear(bits, z, z + len)
  }

  ghost predicate NoRun(bits: seq<bool>, lo: nat, hi: nat, len: nat)
    requires hi <= |bits|
  {
    forall z :: lo <= z && z + len <= hi ==> !RunAt(bits, z, len)
  }

  /** Lowest start of len clear bits inside [lo, hi). */
  function FindRun(bits: seq<bool>, lo: nat, hi: nat, len: nat): (r: Option<nat>)
    requires hi <= |bits|
    ensures r.Some? ==> lo <= r.value && r.value + len <= hi && RunAt(bits, r.value, len)
    ensures r.Some? ==> forall z :: lo <= z < r.value ==> !RunAt(bits, z, len)
    ensures r.None? ==> NoRun(bits, lo, hi, len)
    decreases hi - lo
  {
    if hi < lo + len then None
    else if RunAt(bits, lo, len) then Some(lo)
    else FindRun(bits, lo + 1, hi, len)
  }

  /** The search of CyU3PDmaBufferAlloc: from word searchPos to the end, then the words before it. */
  function Search(bits: seq<bool>, searchPos: nat, len: nat): Option<nat>
    requires 32 * searchPos <= |bits|
  {
    var upper := FindRun(bits, 32 * searchPos, |bits|, len);
    if upper.Some? then upper else FindRun(bits, 0, 32 * searchPos, len)
  }

  /** Number of consecutive ones from line i on. */
  function Ones(bits: seq<bool>, i: nat): (n: nat)
    requires i <= |bits|
    ensures i + n <= |bits|
    ensures forall k :: i <= k < i + n ==> bits[k]
    ensures i + n < |bits| ==> !bits[i + n]
    decreases |bits| - i
  {
    if i == |bits| || !bits[i] then 0 else 1 + Ones(bits, i + 1)
  }

  /** Cache lines for a request of size bytes: at least two. */
  function Lines(size: nat): (n: nat)
    ensures 2 <= n && size <= 32 * n && (n == 2 || 32 * n < size + 32)
  {
    if size <= 32 then 2 else (size + 31) / 32
  }

  /** No fewer lines would do. */
  lemma {:induction false} LinesLeast(size: nat, m: nat)
    requires 2 <= m && size <= 32 * m
    ensures Lines(size) <= m
  {
  }

  // ----- the pool -----

  datatype Buffer = Buffer(start: nat, lines: nat)

  datatype Pool = Pool(bits: seq<bool>, searchPos: nat, live: set<Buffer>)

  /** Is line i one of those the buffer marks? */
  predicate Marks(b: Buffer, i: int) {
    b.start <= i < b.start + b.lines - 1
  }

  ghost predicate Marked(live: set<Buffer>, i: int) {
    exists b :: b in live && Marks(b, i)
  }

  predicate Apart(b: Buffer, d: Buffer) {
    b.start + b.lines <= d.start || d.start + d.lines <= b.start
  }

  /** Live buffers are disjoint line ranges of the region, and the bitmap is exactly their marks. */
  ghost predicate Inv(p: Pool) {
    && 32 * p.searchPos <= |p.bits|
    && (forall b :: b in p.live ==> 1 <= b.start && 2 <= b.lines && b.start + b.lines <= |p.bits|)
    && (forall b, d :: b in p.live && d in p.live && b != d ==> Apart(b, d))
    && (forall i :: 0 <= i < |p.bits| ==> (p.bits[i] <==> Marked(p.live, i)))
  }

  /** The buffer carved out of the run found at z: the run's first line is left to its predecessor. */
  function Carved(z: nat, size: nat): Buffer {
    Buffer(z + 1, Lines(size))
  }

  function AllocStep(p: Pool, size: nat): Pool
    requires 32 * p.searchPos <= |p.bits|
  {
    match Search(p.bits, p.searchPos, Lines(size) + 1)
    case None => p
    case Some(z) =>
      Pool(Filled(p.bits, z + 1, Lines(size) - 1, true), (z + Lines(size)) / 32, p.live + {Carved(z, size)})
  }

  /** What is left of a buffer when the marks from line on are cleared: line becomes its last one. */
  function Shortened(b: Buffer, line: nat): Buffer
    requires b.start <= line
  {
    Buffer(b.start, line - b.start + 1)
  }

  /** The buffers after a free at line: one that starts there is gone, one that line lies inside is cut short. */
  function LiveAfter(live: set<Buffer>, line: nat): set<Buffer> {
    (set b | b in live && !Marks(b, line))
    + (set b | b in live && Marks(b, line) && b.start < line :: Shortened(b, line))
  }

  function FreeStep(p: Pool, line: nat): Pool
    requires line < |p.bits|
  {
    Pool(Filled(p.bits, line, Ones(p.bits, line), false), 0, LiveAfter(p.live, line))
  }

  // ----- every operation keeps the invariant -----

  /** A run of clear bits can touch a live buffer only with its first bit, on that buffer's last line. */
  lemma {:induction false} RunApart(p: Pool, z: nat, lines: nat, d: Buffer)
    requires Inv(p) && d in p.live && z + lines + 1 <= |p.bits| && Clear(p.bits, z, z + lines + 1)
    ensures Apart(Buffer(z + 1, lines), d)
  {
    assert Marked(p.live, d.start);
    assert p.bits[d.start];
    if d.start <= z <= d.start + d.lines - 2 {
      assert Marked(p.live, z);
    }
  }

  lemma {:induction false} AllocKeepsInv(p: Pool, size: nat)
    requires Inv(p)
    ensures Inv(AllocStep(p, size))
  {
    var found := Search(p.bits, p.searchPos, Lines(size) + 1);
    if found.Some? {
      var z := found.value;
      var b := Carved(z, size);
      forall d | d in p.live ensures Apart(b, d) { RunApart(p, z, Lines(size), d); }
      MarksAfterAlloc(p, z, b);
    }
  }

  lemma {:induction false} MarksAfterAlloc(p: Pool, z: nat, b: Buffer)
    requires Inv(p) && b.start == z + 1 && 2 <= b.lines && b.start + b.lines <= |p.bits|
    ensures var bits := Filled(p.bits, b.start, b.lines - 1, true);
      forall i :: 0 <= i < |bits| ==> (bits[i] <==> Marked(p.live + {b}, i))
  {
    var bits := Filled(p.bits, b.start, b.lines - 1, true);
    forall i | 0 <= i < |bits| ensures bits[i] <==> Marked(p.live + {b}, i) {
      assert Marked(p.live + {b}, i) <==> Marked(p.live, i) || Marks(b, i) by {
        if Marked(p.live, i) {
          var d :| d in p.live && Marks(d, i);
          assert d in p.live + {b};
        }
        assert b in p.live + {b};
      }
    }
  }

  /** Counting ones from any marked line of a live buffer stops exactly at its unmarked last line. */
  lemma {:induction false} FreeFindsEnd(p: Pool, b: Buffer, line: nat)
    requires Inv(p) && b in p.live && Marks(b, line)
    ensures Ones(p.bits, line) == b.start + b.lines - 1 - line
  {
    forall k | line <= k < b.start + b.lines - 1 ensures p.bits[k] {
      assert Marks(b, k) && Marked(p.live, k);
    }
    var last := b.start + b.lines - 1;
    LastLineClear(p, b);
    assert !(last < line + Ones(p.bits, line));
  }

  /** The 0 terminator of a live buffer is never set by anyone. */
  lemma {:induction false} LastLineClear(p: Pool, b: Buffer)
    requires Inv(p) && b in p.live
    ensures !p.bits[b.start + b.lines - 1]
  {
    var last := b.start + b.lines - 1;
    forall d | d in p.live ensures !Marks(d, last) {
      if d != b { assert Apart(b, d); }
    }
  }

  /** A line is marked by one buffer only. */
  lemma {:induction false} MarkedOnce(p: Pool, b: Buffer, d: Buffer, i: int)
    requires Inv(p) && b in p.live && d in p.live && Marks(b, i) && Marks(d, i)
    ensures b == d
  {
    assert b == d || Apart(b, d);
  }

  /** The buffers after a free at a marked line of b. */
  lemma {:induction false} LiveAfterIs(p: Pool, b: Buffer, line: nat)
    requires Inv(p) && b in p.live && Marks(b, line)
    ensures LiveAfter(p.live, line) == p.live - {b} + if b.start < line then {Shortened(b, line)} else {}
  {
    forall d | d in p.live && d != b ensures !Marks(d, line) {
      if Marks(d, line) { MarkedOnce(p, b, d, line); }
    }
  }

  /** Freeing a live buffer takes out exactly its marks and the buffer. */
  lemma {:induction false} FreeKeepsInv(p: Pool, b: Buffer)
    requires Inv(p) && b in p.live
    ensures Inv(FreeStep(p, b.start)) && FreeStep(p, b.start).live == p.live - {b}
    ensures FreeStep(p, b.start).bits == Filled(p.bits, b.start, b.lines - 1, false)
  {
    assert Marks(b, b.start);
    FreeAnyKeepsInv(p, b, b.start);
    FreeFindsEnd(p, b, b.start);
    LiveAfterIs(p, b, b.start);
  }

  /**
   Freeing a line inside a live buffer cuts it short: the lines behind are up for allocation while their owner lives
   on.
   */
  lemma {:induction false} FreeInsideShortens(p: Pool, b: Buffer, line: nat)
    requires Inv(p) && b in p.live && Marks(b, line) && b.start < line
    ensures Inv(FreeStep(p, line)) && FreeStep(p, line).live == p.live - {b} + {Shortened(b, line)}
    ensures forall i :: line <= i < b.start + b.lines ==> !FreeStep(p, line).bits[i]
  {
    FreeAnyKeepsInv(p, b, line);
    FreeFindsEnd(p, b, line);
    LiveAfterIs(p, b, line);
    LastLineClear(p, b);
  }

  lemma {:induction false} FreeAnyKeepsInv(p: Pool, b: Buffer, line: nat)
    requires Inv(p) && b in p.live && Marks(b, line)
    ensures Inv(FreeStep(p, line))
  {
    FreeFindsEnd(p, b, line);
    LiveAfterIs(p, b, line);
    var q := FreeStep(p, line);
    forall d, e | d in q.live && e in q.live && d != e ensures Apart(d, e) {
      var d' := if d in p.live && d != b then d else b;
      var e' := if e in p.live && e != b then e else b;
      assert d' != e' && Apart(d', e');
    }
    forall i | 0 <= i < |q.bits| ensures q.bits[i] <==> Marked(q.live, i) {
      MarksAfterFree(p, b, line, i);
    }
  }

  lemma {:induction false} MarksAfterFree(p: Pool, b: Buffer, line: nat, i: nat)
    requires Inv(p) && b in p.live && Marks(b, line) && i < |p.bits|
    ensures Marked(LiveAfter(p.live, line), i) <==> Marked(p.live, i) && !(line <= i < b.start + b.lines - 1)
  {
    LiveAfterIs(p, b, line);
    var live := LiveAfter(p.live, line);
    if Marked(p.live, i) && !(line <= i < b.start + b.lines - 1) {
      var d :| d in p.live && Marks(d, i);
      var e := if d == b then Shortened(b, line) else d;
      assert e in live && Marks(e, i);
    }
    if Marked(live, i) {
      var e :| e in live && Marks(e, i);
      var d := if e in p.live && e != b then e else b;
      assert d in p.live && Marks(d, i);
      if d != b { assert Apart(b, d); }
    }
  }

  /** Freeing a pointer whose first line is not marked (a second free, say) changes no bit. */
  lemma {:induction false} FreeUnmarkedIdle(p: Pool, line: nat)
    requires Inv(p) && line < |p.bits| && !p.bits[line]
    ensures FreeStep(p, line) == p.(searchPos := 0)
  {
    assert Ones(p.bits, line) == 0;
    assert Filled(p.bits, line, 0, false) == p.bits;
    forall b | b in p.live ensures !Marks(b, line) {
      if Marks(b, line) { assert Marked(p.live, line); }
    }
    assert LiveAfter(p.live, line) == p.live;
  }

  // ----- consequences -----

  /** The bitmap is a function of the live buffers. */
  lemma {:induction false} BitmapDeterminedByLive(p: Pool, q: Pool)
    requires Inv(p) && Inv(q) && |p.bits| == |q.bits| && p.live == q.live
    ensures p.bits == q.bits
  {
    forall i | 0 <= i < |p.bits| ensures p.bits[i] == q.bits[i] {
      assert p.bits[i] <==> Marked(p.live, i);
      assert q.bits[i] <==> Marked(q.live, i);
    }
  }

  /** Allocating and freeing again restores the bitmap and the live set. */
  lemma {:induction false} AllocFreeRestores(p: Pool, size: nat, z: nat)
    requires Inv(p) && Search(p.bits, p.searchPos, Lines(size) + 1) == Some(z)
    ensures var q := FreeStep(AllocStep(p, size), z + 1); q.bits == p.bits && q.live == p.live
  {
    var p' := AllocStep(p, size);
    var b := Carved(z, size);
    AllocKeepsInv(p, size);
    FreeKeepsInv(p', b);
    assert b !in p.live by {
      if b in p.live { RunApart(p, z, Lines(size), b); }
    }
    assert p'.live - {b} == p.live;
    BitmapDeterminedByLive(FreeStep(p', b.start), p);
  }

  /** An allocation fails exactly when neither part of the split search range holds a long enough run. */
  lemma {:induction false} SearchFailsIff(bits: seq<bool>, searchPos: nat, len: nat)
    requires 32 * searchPos <= |bits|
    ensures Search(bits, searchPos, len) == None
      <==> NoRun(bits, 32 * searchPos, |bits|, len) && NoRun(bits, 0, 32 * searchPos, len)
  {
    var upper := FindRun(bits, 32 * searchPos, |bits|, len);
    var lower := FindRun(bits, 0, 32 * searchPos, len);
    if upper.Some? { assert RunAt(bits, upper.value, len); }
    if lower.Some? { assert RunAt(bits, lower.value, len); }
  }

  /** Started at word 0, as after any free, it fails only if the bitmap has no such run at all. */
  lemma {:induction false} SearchFromTopComplete(bits: seq<bool>, len: nat)
    requires 0 < len
    ensures Search(bits, 0, len) == None <==> NoRun(bits, 0, |bits|, len)
  {
    SearchFailsIff(bits, 0, len);
  }

  /** Started elsewhere it overlooks runs, but only those that straddle the start of word searchPos. */
  lemma {:induction false} OverlookedRunsStraddle(bits: seq<bool>, searchPos: nat, len: nat, z: nat)
    requires 32 * searchPos <= |bits| && Search(bits, searchPos, len) == None
    requires z + len <= |bits| && RunAt(bits, z, len)
    ensures z < 32 * searchPos < z + len
  {
    SearchFailsIff(bits, searchPos, len);
  }

  // ----- runs -----

  datatype Call = Alloc(size: nat) | Free(line: nat)

  /** Any line of the region may be freed: CyU3PDmaBufferFree only checks the address range. */
  predicate Allowed(p: Pool, call: Call) {
    call.Free? ==> call.line < |p.bits|
  }

  ghost function Step(p: Pool, call: Call): Pool
    requires 32 * p.searchPos <= |p.bits| && Allowed(p, call)
  {
    match call
    case Alloc(size) => AllocStep(p, size)
    case Free(line) => FreeStep(p, line)
  }

  /** The pool after the given calls on a fresh region of n lines; None if some call was not allowed. */
  ghost function Run(n: nat, calls: seq<Call>): Option<Pool> {
    if calls == [] then Some(Pool(seq(n, _ => false), 0, {}))
    else
      var q := Run(n, calls[..|calls| - 1]);
      if q.Some? && 32 * q.value.searchPos <= |q.value.bits| && Allowed(q.value, calls[|calls| - 1])
      then Some(Step(q.value, calls[|calls| - 1])) else None
  }

  lemma {:induction false} StepKeepsInv(p: Pool, call: Call)
    requires Inv(p) && Allowed(p, call)
    ensures Inv(Step(p, call)) && |Step(p, call).bits| == |p.bits|
  {
    match call
    case Alloc(size) => AllocKeepsInv(p, size);
    case Free(line) =>
      if p.bits[line] {
        assert Marked(p.live, line);
        var b :| b in p.live && Marks(b, line);
        FreeAnyKeepsInv(p, b, line);
      } else {
        FreeUnmarkedIdle(p, line);
      }
  }

  /** Over every run the live buffers stay disjoint and the bitmap stays exactly their marks. */
  lemma {:induction false} RunKeepsInv(n: nat, calls: seq<Call>)
    requires Run(n, calls).Some?
    ensures Inv(Run(n, calls).value) && |Run(n, calls).value.bits| == n
  {
    if calls != [] {
      RunKeepsInv(n, calls[..|calls| - 1]);
      StepKeepsInv(Run(n, calls[..|calls| - 1]).value, calls[|calls| - 1]);
    }
  }

  // ----- a run that overlooks a free run -----

  lemma {:induction false} FoundAt(bits: seq<bool>, searchPos: nat, len: nat, z: nat)
    requires 32 * searchPos <= z && z + len <= |bits| && RunAt(bits, z, len)
    requires forall y :: 32 * searchPos <= y < z ==> !RunAt(bits, y, len)
    ensures Search(bits, searchPos, len) == Some(z)
  {
    assert RunAt(bits, z, len);
  }

  /** The calls lead to this bitmap and search position. */
  ghost predicate Reaches(n: nat, calls: seq<Call>, bits: seq<bool>, searchPos: nat) {
    Run(n, calls).Some? && Run(n, calls).value.bits == bits && Run(n, calls).value.searchPos == searchPos && |bits| == n
  }

  lemma {:induction false} NextCall(n: nat, calls: seq<Call>, call: Call)
    requires Run(n, calls).Some? && Allowed(Run(n, calls).value, call)
    ensures Inv(Run(n, calls).value) && Run(n, calls + [call]) == Some(Step(Run(n, calls).value, call))
  {
    RunKeepsInv(n, calls);
    assert (calls + [call])[..|calls|] == calls;
  }

  lemma {:induction false} AllocAt(n: nat, calls: seq<Call>, bits: seq<bool>, searchPos: nat, size: nat, z: nat)
    requires Reaches(n, calls, bits, searchPos) && z + Lines(size) + 1 <= n
    requires 32 * searchPos <= n && Search(bits, searchPos, Lines(size) + 1) == Some(z)
    ensures Reaches(n, calls + [Alloc(size)], Filled(bits, z + 1, Lines(size) - 1, true), (z + Lines(size)) / 32)
  {
    NextCall(n, calls, Alloc(size));
  }

  lemma {:induction false} OnesAre(bits: seq<bool>, line: nat, ones: nat)
    requires line + ones < |bits| && !bits[line + ones] && forall i :: line <= i < line + ones ==> bits[i]
    ensures Ones(bits, line) == ones
  {
  }

  lemma {:induction false} FreeAt(n: nat, calls: seq<Call>, bits: seq<bool>, searchPos: nat, line: nat, ones: nat)
    requires Reaches(n, calls, bits, searchPos) && line + ones < n && !bits[line + ones]
    requires forall i :: line <= i < line + ones ==> bits[i]
    ensures Reaches(n, calls + [Free(line)], Filled(bits, line, ones, false), 0)
  {
    NextCall(n, calls, Free(line));
    OnesAre(bits, line, ones);
  }

  // buffers of 30, 2, 2 and 29 lines fill two words; the second and the last are freed, 29 lines allocated again

  const CALLS1 := [] + [Alloc(960)]
  const CALLS2 := CALLS1 + [Alloc(64)]
  const CALLS3 := CALLS2 + [Alloc(64)]
  const CALLS4 := CALLS3 + [Alloc(928)]
  const CALLS5 := CALLS4 + [Free(31)]
  const CALLS6 := CALLS5 + [Free(35)]
  const CALLS7 := CALLS6 + [Alloc(928)]

  /** Lines 1 to 29 marked, and those others that are asked for. */
  function Lines64(b: bool, c: bool, d: bool): (bits: seq<bool>)
    ensures |bits| == 64
  {
    seq(64, i requires 0 <= i < 64 => 1 <= i < 30 || (b && i == 31) || (c && i == 33) || (d && 35 <= i < 63))
  }

  /** Nothing but the run at 30 has three clear lines before line 32, nor before 34 once line 33 is marked. */
  lemma {:induction false} NoRunBelow(b: bool, c: bool, d: bool, len: nat, y: nat)
    requires 3 <= len && y + len <= 64 && (y < 30 || (b && y < 32) || (c && 30 < y < 34) || (c && 3 < len && y < 34))
    ensures !RunAt(Lines64(b, c, d), y, len)
  {
    assert Lines64(b, c, d)[if y == 0 then 1 else if y < 30 then y else if b && y < 32 then 31 else 33];
  }

  lemma {:induction false} FoundAbove(b: bool, c: bool, d: bool, searchPos: nat, len: nat, z: nat)
    requires 3 <= len && 32 * searchPos <= z && z + len <= 64 && RunAt(Lines64(b, c, d), z, len)
    requires z == 30 || z == 32 * searchPos || (c && 3 < len && z <= 34)
    ensures Search(Lines64(b, c, d), searchPos, len) == Some(z)
  {
    var bits := Lines64(b, c, d);
    forall y | 32 * searchPos <= y < z ensures !RunAt(bits, y, len) { NoRunBelow(b, c, d, len, y); }
    FoundAt(bits, searchPos, len, z);
  }

  lemma {:induction false} NoneFound(bits: seq<bool>, searchPos: nat, len: nat)
    requires bits == Lines64(false, true, true) && searchPos == 1 && len == 3
    ensures Search(bits, searchPos, len) == None
  {
    forall z | 0 <= z && z + len <= 64 && z != 30 ensures !RunAt(bits, z, len) {
      if z < 34 { NoRunBelow(false, true, true, len, z); } else { assert bits[if z == 34 then 35 else z]; }
    }
    SearchFailsIff(bits, searchPos, len);
  }

  lemma {:induction false} Takes(calls: seq<Call>, b: bool, c: bool, d: bool, searchPos: nat, size: nat, z: nat)
    requires Reaches(64, calls, Lines64(b, c, d), searchPos) && 32 * searchPos <= z && z + Lines(size) + 1 <= 64
    requires RunAt(Lines64(b, c, d), z, Lines(size) + 1)
    requires z == 30 || z == 32 * searchPos || (c && 3 < Lines(size) + 1 && z <= 34)
    ensures Reaches(64, calls + [Alloc(size)],
                    Filled(Lines64(b, c, d), z + 1, Lines(size) - 1, true), (z + Lines(size)) / 32)
  {
    FoundAbove(b, c, d, searchPos, Lines(size) + 1, z);
    AllocAt(64, calls, Lines64(b, c, d), searchPos, size, z);
  }

  lemma {:induction false} FindsFirst()
    ensures Reaches(64, CALLS1, Lines64(false, false, false), 0)
  {
    var bits := seq(64, _ => false);
    assert Reaches(64, [], bits, 0);
    FoundAt(bits, 0, 31, 0);
    AllocAt(64, [], bits, 0, 960, 0);
    assert Filled(bits, 1, 29, true) == Lines64(false, false, false);
  }

  lemma {:induction false} FindsSecond()
    ensures Reaches(64, CALLS2, Lines64(true, false, false), 1)
  {
    FindsFirst();
    var bits := Lines64(false, false, false);
    Takes(CALLS1, false, false, false, 0, 64, 30);
    assert Filled(bits, 31, 1, true) == Lines64(true, false, false);
  }

  lemma {:induction false} FindsThird()
    ensures Reaches(64, CALLS3, Lines64(true, true, false), 1)
  {
    FindsSecond();
    var bits := Lines64(true, false, false);
    Takes(CALLS2, true, false, false, 1, 64, 32);
    assert Filled(bits, 33, 1, true) == Lines64(true, true, false);
  }

  lemma {:induction false} FindsFourth()
    ensures Reaches(64, CALLS4, Lines64(true, true, true), 1)
  {
    FindsThird();
    var bits := Lines64(true, true, false);
    Takes(CALLS3, true, true, false, 1, 928, 34);
    assert Filled(bits, 35, 28, true) == Lines64(true, true, true);
  }

  lemma {:induction false} BothFreed()
    ensures Reaches(64, CALLS6, Lines64(false, true, false), 0)
  {
    FindsFourth();
    FreeAt(64, CALLS4, Lines64(true, true, true), 1, 31, 1);
    assert Filled(Lines64(true, true, true), 31, 1, false) == Lines64(false, true, true);
    FreeAt(64, CALLS5, Lines64(false, true, true), 0, 35, 28);
    assert Filled(Lines64(false, true, true), 35, 28, false) == Lines64(false, true, false);
  }

  lemma {:induction false} FindsAgain()
    ensures Reaches(64, CALLS7, Lines64(false, true, true), 1)
  {
    BothFreed();
    var bits := Lines64(false, true, false);
    Takes(CALLS6, false, true, false, 0, 928, 34);
    assert Filled(bits, 35, 28, true) == Lines64(false, true, true);
  }

  /** Then lines 30 to 32 are clear, and a request for two lines, which needs three clear ones, still fails. */
  lemma {:induction false} SearchOverlooks()
    ensures var r := Run(64, CALLS7);
      && r.Some? && Inv(r.value) && |r.value.bits| == 64 && RunAt(r.value.bits, 30, 3)
      && Search(r.value.bits, r.value.searchPos, Lines(64) + 1) == None && AllocStep(r.value, 64) == r.value
  {
    FindsAgain();
    RunKeepsInv(64, CALLS7);
    NoneFound(Run(64, CALLS7).value.bits, 1, Lines(64) + 1);
  }
}
