/** The DMA buffer manager of src/cyfx/cyfx_tx.c: status words, search position, alloc and free. */
module DmaManager {
  import opened Options
  import opened DmaBits
  import opened DmaPool

  /** bits lists the bits of the status words, one per cache line. */
  ghost predicate Mirrors(words: seq<nat>, bits: seq<bool>) {
    && |bits| == 32 * |words|
    && (forall w :: 0 <= w < |words| ==> words[w] < Pow2(32))
    && forall w, b :: 0 <= w < |words| && 0 <= b < 32 ==> bits[32 * w + b] == Bit(words[w], b)
  }

  /** A word whose bits [s, e) have been set to value. */
  ghost predicate Patched(was: nat, now: nat, s: nat, e: nat, value: bool) {
    forall k :: 0 <= k < 32 ==> Bit(now, k) == if s <= k < e then value else Bit(was, k)
  }

  lemma {:induction false} PatchedWord(words: seq<nat>, bits: seq<bool>, w: nat, now: nat, s: nat, e: nat, value: bool)
    requires Mirrors(words, bits) && w < |words| && s <= e <= 32
    requires now < Pow2(32) && Patched(words[w], now, s, e, value)
    ensures Mirrors(words[w := now], Filled(bits, 32 * w + s, e - s, value))
  {
    var words', bits' := words[w := now], Filled(bits, 32 * w + s, e - s, value);
    forall v, b | 0 <= v < |words'| && 0 <= b < 32 ensures bits'[32 * v + b] == Bit(words'[v], b) {
      assert bits[32 * v + b] == Bit(words[v], b);
      if v < w { assert 32 * v + b < 32 * w; } else if w < v { assert 32 * w + 32 <= 32 * v + b; }
    }
  }

  lemma {:induction false} OrPatches(was: nat, s: nat, e: nat)
    requires s <= e <= 32
    ensures 0 <= Mask(s, e) && Patched(was, Or(was, Mask(s, e)), s, e, true)
  {
    MaskBits(s, e, 0);
    forall k | 0 <= k < 32 ensures Bit(Or(was, Mask(s, e)), k) <==> s <= k < e || Bit(was, k) {
      MaskBits(s, e, k);
      OrBits(was, Mask(s, e), k);
    }
  }

  lemma {:induction false} AndNotPatches(was: nat, s: nat, e: nat)
    requires s <= e <= 32
    ensures 0 <= Mask(s, e) && Patched(was, AndNot(was, Mask(s, e)), s, e, false)
  {
    MaskBits(s, e, 0);
    forall k | 0 <= k < 32 ensures Bit(AndNot(was, Mask(s, e)), k) <==> !(s <= k < e) && Bit(was, k) {
      MaskBits(s, e, k);
      AndNotBits(was, Mask(s, e), k);
    }
  }

  lemma {:induction false} FilledTwice(bits: seq<bool>, start: nat, n: nat, m: nat, value: bool)
    requires start + n + m <= |bits|
    ensures Filled(Filled(bits, start, n, value), start + n, m, value) == Filled(bits, start, n + m, value)
  {
  }

  lemma {:induction false} FilledNothing(bits: seq<bool>, start: nat, value: bool)
    requires start <= |bits|
    ensures Filled(bits, start, 0, value) == bits
  {
  }

  // ----- the search loop -----

  /** What the loop knows at position pos of the part of the bitmap that starts at lo. */
  ghost predicate Scanned(bits: seq<bool>, lo: nat, pos: nat, count: nat, len: nat) {
    && lo + count <= pos <= |bits| && count < len
    && Clear(bits, pos - count, pos)
    && (lo < pos - count ==> bits[pos - count - 1])
    && NoRun(bits, lo, pos, len)
  }

  lemma {:induction false} ScanStart(bits: seq<bool>, lo: nat, len: nat)
    requires lo <= |bits| && 0 < len
    ensures Scanned(bits, lo, lo, 0, len)
  {
  }

  lemma {:induction false} ScanOne(bits: seq<bool>, lo: nat, pos: nat, count: nat, len: nat)
    requires Scanned(bits, lo, pos, count, len) && pos < |bits| && bits[pos]
    ensures Scanned(bits, lo, pos + 1, 0, len)
  {
    forall z | lo <= z && z + len <= pos + 1 ensures !RunAt(bits, z, len) {
      if z + len == pos + 1 { assert bits[pos]; }
    }
  }

  lemma {:induction false} ScanZero(bits: seq<bool>, lo: nat, pos: nat, count: nat, len: nat)
    requires Scanned(bits, lo, pos, count, len) && pos < |bits| && !bits[pos]
    ensures count + 1 < len ==> Scanned(bits, lo, pos + 1, count + 1, len)
    ensures count + 1 == len ==> RunAt(bits, pos - count, len)
  {
    if count + 1 < len {
      forall z | lo <= z && z + len <= pos + 1 ensures !RunAt(bits, z, len) {
        if z + len == pos + 1 {
          assert z <= pos - count - 1;
          assert bits[pos - count - 1];
        }
      }
    }
  }

  /** A run that ends where the scan stands is the lowest one in its part. */
  lemma {:induction false} ScanFound(bits: seq<bool>, lo: nat, hi: nat, pos: nat, len: nat)
    requires lo + len <= pos + 1 <= hi <= |bits| && NoRun(bits, lo, pos, len) && RunAt(bits, pos + 1 - len, len)
    ensures FindRun(bits, lo, hi, len) == Some(pos + 1 - len)
  {
    assert RunAt(bits, pos + 1 - len, len);
  }

  lemma {:induction false} ScanMissed(bits: seq<bool>, lo: nat, hi: nat, len: nat)
    requires hi <= |bits| && NoRun(bits, lo, hi, len)
    ensures FindRun(bits, lo, hi, len) == None
  {
  }

  /** The first hit of the wrapping scan is the result of the search. */
  lemma {:induction false} SearchHit(bits: seq<bool>, searchPos: nat, wrapped: bool, pos: nat, len: nat)
    requires 32 * searchPos <= |bits| && pos < |bits| && len <= pos + 1 && RunAt(bits, pos + 1 - len, len)
    requires !wrapped ==> 32 * searchPos + len <= pos + 1 && NoRun(bits, 32 * searchPos, pos, len)
    requires wrapped ==> pos < 32 * searchPos && NoRun(bits, 0, pos, len) && NoRun(bits, 32 * searchPos, |bits|, len)
    ensures Search(bits, searchPos, len) == Some(pos + 1 - len)
  {
    if wrapped {
      ScanMissed(bits, 32 * searchPos, |bits|, len);
      ScanFound(bits, 0, 32 * searchPos, pos, len);
    } else {
      ScanFound(bits, 32 * searchPos, |bits|, pos, len);
    }
  }

  /** Invariant of the search loop; wrapped says that it has started over at word 0. */
  ghost predicate ScanInv(bits: seq<bool>, n: nat, searchPos: nat, wrapped: bool, wordnum: nat, bitnum: nat, tmp: nat,
                          count: nat, start: nat, len: nat)
    requires 32 * n == |bits|
  {
    && wordnum < n && bitnum < 32 && tmp <= n && searchPos < n && (tmp == n ==> bitnum == 0)
    && Scanned(bits, if wrapped then 0 else 32 * searchPos, 32 * wordnum + bitnum, count, len)
    && (0 < count ==> start == 32 * wordnum + bitnum - count + 1)
    && (if wrapped then tmp == n - searchPos + wordnum && NoRun(bits, 32 * searchPos, |bits|, len)
        else tmp == wordnum - searchPos)
  }

  lemma {:induction false} ScanBegins(bits: seq<bool>, n: nat, searchPos: nat, len: nat)
    requires 32 * n == |bits| && searchPos < n && 0 < len
    ensures ScanInv(bits, n, searchPos, false, searchPos, 0, 0, 0, 0, len)
  {
    ScanStart(bits, 32 * searchPos, len);
  }

  /** One bit further, within the word, to the next word, or over the end of the array back to word 0. */
  lemma {:induction false} ScanAdvance(bits: seq<bool>, n: nat, searchPos: nat, wrapped: bool, wordnum: nat,
                                       bitnum: nat, tmp: nat,
                    count: nat, start: nat, len: nat, count': nat, start': nat)
    requires 32 * n == |bits| && ScanInv(bits, n, searchPos, wrapped, wordnum, bitnum, tmp, count, start, len)
    requires tmp < n
    requires count' == (if bits[32 * wordnum + bitnum] then 0 else count + 1) < len
    requires start' == if !bits[32 * wordnum + bitnum] && count == 0 then 32 * wordnum + bitnum + 1 else start
    ensures bitnum + 1 < 32 ==> ScanInv(bits, n, searchPos, wrapped, wordnum, bitnum + 1, tmp, count', start', len)
    ensures bitnum + 1 == 32 && wordnum + 1 < n ==>
      ScanInv(bits, n, searchPos, wrapped, wordnum + 1, 0, tmp + 1, count', start', len)
    ensures bitnum + 1 == 32 && wordnum + 1 == n ==> ScanInv(bits, n, searchPos, true, 0, 0, tmp + 1, 0, start', len)
  {
    var lo, pos := if wrapped then 0 else 32 * searchPos, 32 * wordnum + bitnum;
    if bits[pos] { ScanOne(bits, lo, pos, count, len); } else { ScanZero(bits, lo, pos, count, len); }
    ScanStart(bits, 0, len);
  }

  lemma {:induction false} ScanHits(bits: seq<bool>, n: nat, searchPos: nat, wrapped: bool, wordnum: nat,
                                    bitnum: nat, tmp: nat,
                 count: nat, start: nat, len: nat)
    requires 32 * n == |bits| && ScanInv(bits, n, searchPos, wrapped, wordnum, bitnum, tmp, count, start, len)
    requires tmp < n
    requires !bits[32 * wordnum + bitnum] && count + 1 == len
    ensures Search(bits, searchPos, len) == Some(32 * wordnum + bitnum + 1 - len)
  {
    var lo, pos := if wrapped then 0 else 32 * searchPos, 32 * wordnum + bitnum;
    ScanZero(bits, lo, pos, count, len);
    SearchHit(bits, searchPos, wrapped, pos, len);
  }

  lemma {:induction false} ScanFails(bits: seq<bool>, n: nat, searchPos: nat, wrapped: bool, wordnum: nat,
                                     bitnum: nat, tmp: nat,
                  count: nat, start: nat, len: nat)
    requires 32 * n == |bits| && ScanInv(bits, n, searchPos, wrapped, wordnum, bitnum, tmp, count, start, len)
    requires tmp == n
    ensures Search(bits, searchPos, len) == None
  {
    SearchFailsIff(bits, searchPos, len);
  }

  lemma {:induction false} AllocStepIs(p: Pool, size: nat, z: nat)
    requires 32 * p.searchPos <= |p.bits| && Search(p.bits, p.searchPos, Lines(size) + 1) == Some(z)
    ensures z + 1 + Lines(size) <= |p.bits|
    ensures AllocStep(p, size) ==
      Pool(Filled(p.bits, z + 1, Lines(size) - 1, true), (z + Lines(size)) / 32, p.live + {Buffer(z + 1, Lines(size))})
  {
  }

  class BufferManager {
    const startAddr: nat
    const usedStatus: array<nat>
    var searchPos: nat
    ghost var bits: seq<bool>
    ghost var live: set<Buffer>

    ghost predicate InStep()
      reads this, usedStatus
    {
      Mirrors(usedStatus[..], bits)
    }

    ghost function State(): Pool
      reads this
    {
      Pool(bits, searchPos, live)
    }

    ghost predicate Valid()
      reads this, usedStatus
    {
      searchPos < usedStatus.Length && InStep() && Inv(State())
    }

    /** CyU3PDmaBufferInit: one word per 32 cache lines, all clear. */
    constructor (startAddr: nat, statusSize: nat)
      requires 0 < startAddr && 0 < statusSize
      ensures Valid() && fresh(usedStatus) && usedStatus.Length == statusSize && this.startAddr == startAddr
      ensures State() == Pool(seq(32 * statusSize, _ => false), 0, {})
    {
      this.startAddr := startAddr;
      usedStatus := new nat[statusSize](_ => 0);
      searchPos := 0;
      bits := seq(32 * statusSize, _ => false);
      live := {};
      new;
      forall i: nat ensures !Bit(0, i) { ZeroBits(i); }
    }

    /** CyU3PDmaBufMgrSetStatus */
    method SetStatus(startPos: nat, num: nat, value: bool)
      requires InStep() && startPos + num <= |bits|
      modifies usedStatus, this`bits
      ensures InStep() && bits == Filled(old(bits), startPos, num, value)
    {
      var numBits := num;
      var wordnum := startPos / 32;
      var startbit := startPos % 32;
      var endbit := if 32 <= startbit + numBits then 32 else startbit + numBits;
      var mask := Mask(startbit, endbit);
      ghost var before := bits;
      FilledNothing(before, startPos, value);
      while numBits != 0
        invariant 0 <= numBits <= num && 0 <= startbit <= endbit <= 32 && startbit < 32
        invariant endbit == if 32 <= startbit + numBits then 32 else startbit + numBits
        invariant mask == Mask(startbit, endbit)
        invariant 32 * wordnum + startbit == startPos + (num - numBits) || numBits == 0
        invariant InStep() && bits == Filled(before, startPos, num - numBits, value)
        decreases numBits
      {
        PatchWord(wordnum, startbit, endbit, mask, value);
        FilledTwice(before, startPos, num - numBits, endbit - startbit, value);
        wordnum := wordnum + 1;
        numBits := numBits - (endbit - startbit);
        startbit := 0;
        if numBits >= 32 {
          endbit := 32;
          mask := 0xFFFF_FFFF;
        } else {
          endbit := numBits;
          mask := Pow2(numBits) - 1;
        }
      }
    }

    /** One word of the loop: |= mask or &= ~mask. */
    method PatchWord(wordnum: nat, ghost s: nat, ghost e: nat, mask: int, value: bool)
      requires InStep() && wordnum < usedStatus.Length && s <= e <= 32 && mask == Mask(s, e)
      modifies usedStatus, this`bits
      ensures InStep() && bits == Filled(old(bits), 32 * wordnum + s, e - s, value)
    {
      ghost var words := usedStatus[..];
      MaskBits(s, e, 0);
      WordSize(words[wordnum], mask, 32);
      if value {
        OrPatches(words[wordnum], s, e);
        usedStatus[wordnum] := Or(usedStatus[wordnum], mask);
      } else {
        AndNotPatches(words[wordnum], s, e);
        usedStatus[wordnum] := AndNot(usedStatus[wordnum], mask);
      }
      PatchedWord(words, bits, wordnum, usedStatus[wordnum], s, e, value);
      assert usedStatus[..] == words[wordnum := usedStatus[wordnum]];
      bits := Filled(bits, 32 * wordnum + s, e - s, value);
    }

    /** The status test of both loops. */
    method Used(wordnum: nat, bitnum: nat) returns (r: bool)
      requires InStep() && wordnum < usedStatus.Length && bitnum < 32
      ensures r == bits[32 * wordnum + bitnum]
    {
      AndOneBit(usedStatus[wordnum], bitnum);
      assert bits[32 * wordnum + bitnum] == Bit(usedStatus[..][wordnum], bitnum);
      r := And(usedStatus[wordnum], Pow2(bitnum)) != 0;
    }

    /** The search loop of CyU3PDmaBufferAlloc for len zero bits; word is where it stopped. */
    method Scan(len: nat) returns (found: bool, start: nat, word: nat)
      requires InStep() && searchPos < usedStatus.Length && 0 < len
      ensures found <==> Search(bits, searchPos, len).Some?
      ensures found ==> start == Search(bits, searchPos, len).value + 1 && 32 * word <= start + len - 2 < 32 * word + 32
    {
      ghost var n, wrapped := usedStatus.Length, false;
      var wordnum, bitnum, count, tmp := searchPos, 0, 0, 0;
      start := 0;
      ScanBegins(bits, n, searchPos, len);
      while tmp < usedStatus.Length
        invariant 0 <= wordnum && 0 <= bitnum && 0 <= tmp && 0 <= count && n == usedStatus.Length
        invariant ScanInv(bits, n, searchPos, wrapped, wordnum, bitnum, tmp, count, start, len)
        decreases usedStatus.Length - tmp, 32 - bitnum
      {
        var used := Used(wordnum, bitnum);
        ghost var count0, start0 := count, start;
        if !used {
          if count == 0 {
            start := 32 * wordnum + bitnum + 1;
          }
          count := count + 1;
          if count == len {
            ScanHits(bits, n, searchPos, wrapped, wordnum, bitnum, tmp, count0, start0, len);
            return true, start, wordnum;
          }
        } else {
          count := 0;
        }
        ScanAdvance(bits, n, searchPos, wrapped, wordnum, bitnum, tmp, count0, start0, len, count, start);
        bitnum := bitnum + 1;
        if bitnum == 32 {
          bitnum := 0;
          wordnum := wordnum + 1;
          tmp := tmp + 1;
          if wordnum == usedStatus.Length {
            wordnum := 0;
            count := 0;
            wrapped := true;
          }
        }
      }
      ScanFails(bits, n, searchPos, wrapped, wordnum, bitnum, tmp, count, start, len);
      found, word := false, wordnum;
    }

    /** CyU3PDmaBufferAlloc */
    method Alloc(size: nat) returns (ptr: Option<nat>)
      requires Valid() && size < 0x1_0000
      modifies this`searchPos, this`live, this`bits, usedStatus
      ensures Valid() && State() == AllocStep(old(State()), size)
      ensures ptr == match Search(old(bits), old(searchPos), Lines(size) + 1)
                     case None => None
                     case Some(z) => Some(startAddr + 32 * (z + 1))
    {
      var lines := if size <= 32 then 2 else (size + 31) / 32;
      var found, start := Take(lines, size);
      ptr := if found then Some(startAddr + 32 * start) else None;
    }

    method Take(lines: nat, ghost size: nat) returns (found: bool, start: nat)
      requires Valid() && lines == Lines(size)
      modifies this`searchPos, this`live, this`bits, usedStatus
      ensures Valid() && State() == AllocStep(old(State()), size)
      ensures Search(old(bits), old(searchPos), Lines(size) + 1) == if found then Some(start - 1) else None
      ensures found ==> 0 < start
    {
      var word;
      found, start, word := Scan(lines + 1);
      if found {
        Mark(start, lines, word, size);
      }
    }

    method Mark(start: nat, lines: nat, word: nat, ghost size: nat)
      requires Valid() && lines == Lines(size) && 0 < start
      requires Search(bits, searchPos, lines + 1) == Some(start - 1) && 32 * word <= start - 1 + lines < 32 * word + 32
      modifies this`searchPos, this`live, this`bits, usedStatus
      ensures Valid() && State() == AllocStep(old(State()), size)
    {
      AllocStepIs(State(), size, start - 1);
      AllocKeepsInv(State(), size);
      searchPos := word;
      live := live + {Buffer(start, lines)};
      SetStatus(start, lines - 1, true);
    }

    /** The counting loop of CyU3PDmaBufferFree. */
    method CountOnes(line: nat) returns (count: nat)
      requires InStep() && line < |bits|
      ensures count == Ones(bits, line)
    {
      var wordnum, bitnum := line / 32, line % 32;
      count := 0;
      while wordnum < usedStatus.Length
        invariant 0 <= wordnum <= usedStatus.Length && 0 <= bitnum < 32
        invariant (wordnum == usedStatus.Length ==> bitnum == 0)
        invariant 32 * wordnum + bitnum == line + count
        invariant line + count <= |bits| && Ones(bits, line) == count + Ones(bits, line + count)
        decreases |bits| - (line + count)
      {
        var used := Used(wordnum, bitnum);
        if !used {
          return;
        }
        count := count + 1;
        bitnum := bitnum + 1;
        if bitnum == 32 {
          bitnum := 0;
          wordnum := wordnum + 1;
        }
      }
    }

    /** CyU3PDmaBufferFree; true is the success code 0 */
    method Free(buffer: nat) returns (ok: bool)
      requires Valid()
      modifies this`searchPos, this`live, this`bits, usedStatus
      ensures Valid()
      ensures ok <==> startAddr < buffer < startAddr + 32 * |old(bits)|
      ensures State() == if ok then FreeStep(old(State()), (buffer - startAddr) / 32) else old(State())
    {
      if !(startAddr < buffer < startAddr + 1024 * usedStatus.Length) {
        return false;
      }
      var start := (buffer - startAddr) / 32;
      StepKeepsInv(State(), Call.Free(start));
      var count := CountOnes(start);
      SetStatus(start, count, false);
      searchPos := 0;
      live := LiveAfter(live, start);
      ok := true;
    }
  }
}
