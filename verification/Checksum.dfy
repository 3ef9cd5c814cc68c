/** The three versions of lwip_standard_chksum (lib/lwip/src/core/inet_chksum.c). */
module Checksum {
  import opened Bytes
  import opened OnesComplement

  /** Modulus of u32_t. */
  const U32 := 0x1_0000_0000

  /** Both folds and, after an odd start, the swap back. */
  function Finish(odd: bool, sum: nat): nat {
    if odd then Swap(Fold(Fold(sum))) else Fold(Fold(sum))
  }

  lemma {:induction false} WrapAdd(total: nat, x: nat)
    ensures (total % U32 + x) % U32 == (total + x) % U32
  {
    var q := total / U32;
    assert total + x == total % U32 + x + q * U32;
    WrapBy(total % U32 + x, q);
  }

  lemma {:induction false} WrapBy(a: nat, q: nat)
    ensures (a + q * U32) % U32 == a % U32
  {
    if 0 < q { WrapBy(a, q - 1); }
  }

  // ----- version 1: big-endian words, byte order fixed at the end -----

  /** Both folds, then host byte order. */
  function Finish1(o: Order, sum: nat): (r: nat)
    requires sum < U32
    ensures r <= M
  {
    FoldTwice(sum);
    SwapSame(Fold(Fold(sum)));
    Htons(o, Fold(Fold(sum)))
  }

  lemma {:induction false} Finish1Same(o: Order, sum: nat)
    requires sum < U32
    ensures Same(Finish1(o, sum), if o.Little? then 256 * sum else sum)
  {
    var c := Fold(Fold(sum));
    FoldTwice(sum);
    if o.Little? {
      SwapSame(c);
      SameTimes256(c, sum);
    }
  }

  method Version1(o: Order, data: seq<byte>) returns (r: nat)
    ensures r == Finish1(o, PlainSum(Big, data) % U32)
  {
    var acc := 0;
    var i, len := 0, |data|;
    ghost var total: nat := 0;
    while len > 1
      invariant 0 <= len && i + len == |data|
      invariant acc == total % U32 && total + PlainSum(Big, data[i..]) == PlainSum(Big, data)
    {
      var src := Word(Big, data[i], 0);
      src := src + data[i + 1];
      PeelWord(Big, data, i);
      WrapAdd(total, src);
      acc := (acc + src) % U32;
      total := total + src;
      i, len := i + 2, len - 2;
    }
    if len > 0 {
      var src := Word(Big, data[i], 0);
      WrapAdd(total, src);
      acc := (acc + src) % U32;
      total := total + src;
    }
    assert total == PlainSum(Big, data);
    acc := FoldDown(acc);
    SwapSame(acc);
    r := Htons(o, acc);
  }

  /** "add deferred carry bits": the second fold only if the first left a carry. */
  method FoldDown(u: nat) returns (r: nat)
    requires u < U32
    ensures r == Fold(Fold(u)) <= M
  {
    FoldTwice(u);
    r := u / 65536 + u % 65536;
    if r / 65536 != 0 {
      r := r / 65536 + r % 65536;
    }
  }

  /** Version 1 is the reference as long as the plain sum fits 32 bits. */
  lemma {:induction false} Version1Correct(o: Order, data: seq<byte>)
    requires PlainSum(Big, data) < U32
    ensures Finish1(o, PlainSum(Big, data)) == RefSum(o, data)
  {
    Finish1Same(o, PlainSum(Big, data));
    OrdersSwapped(data);
    Delivers(o, data, Finish1(o, PlainSum(Big, data)));
  }

  // ----- version 2: host words, end bytes apart -----

  /** What version 2 accumulates, before any wrap-around. */
  function Total2(o: Order, odd: bool, data: seq<byte>): nat {
    if odd && |data| > 0 then Word(o, 0, data[0]) + PlainSum(o, data[1..]) else PlainSum(o, data)
  }

  method Version2(o: Order, odd: bool, data: seq<byte>) returns (r: nat)
    ensures r == Finish(odd, Total2(o, odd, data) % U32) <= M
  {
    var sum := Accumulate(o, odd, data);
    FinishSame(odd, sum);
    r := Finish(odd, sum);
  }

  method Accumulate(o: Order, odd: bool, data: seq<byte>) returns (sum: nat)
    ensures sum == Total2(o, odd, data) % U32
  {
    var t1: byte, i := 0, 0;
    if odd && |data| > 0 {
      t1 := data[0];
      i := 1;
    }
    var bulk, t0, total := Bulk(o, data, i);
    EndBytes(o, odd, data, total, t0);
    WrapAdd(total, Word(o, t0, t1));
    sum := (bulk + Word(o, t0, t1)) % U32;
  }

  /** The two end bytes share one word t: the last byte in its first half, the first byte in its second. */
  lemma {:induction false} EndBytes(o: Order, odd: bool, data: seq<byte>, total: nat, t0: byte)
    requires total + Word(o, t0, 0) == PlainSum(o, data[if odd && |data| > 0 then 1 else 0..])
    ensures total + Word(o, t0, if odd && |data| > 0 then data[0] else 0) == Total2(o, odd, data)
  {
    assert data[0..] == data;
  }

  /** The 16-bit loop; the odd byte at the end, if any, is handed back apart. */
  method Bulk(o: Order, data: seq<byte>, first: nat) returns (sum: nat, last: byte, ghost total: nat)
    requires first <= |data|
    ensures sum == total % U32 && total + Word(o, last, 0) == PlainSum(o, data[first..])
  {
    var i, len := first, |data| - first;
    sum, last, total := 0, 0, 0;
    while len > 1
      invariant 0 <= len && first <= i && i + len == |data|
      invariant sum == total % U32 && total + PlainSum(o, data[i..]) == PlainSum(o, data[first..])
    {
      PeelWord(o, data, i);
      WrapAdd(total, Word(o, data[i], data[i + 1]));
      sum := (sum + Word(o, data[i], data[i + 1])) % U32;
      total := total + Word(o, data[i], data[i + 1]);
      i, len := i + 2, len - 2;
    }
    if len > 0 {
      last := data[i];
    }
  }

  /** An odd start gives the shifted sum; the final swap shifts it back. */
  lemma {:induction false} Total2Same(o: Order, odd: bool, data: seq<byte>)
    ensures Same(if odd then 256 * Total2(o, odd, data) else Total2(o, odd, data), PlainSum(o, data))
  {
    if odd && |data| > 0 {
      var total := Total2(o, odd, data);
      assert Same(256 * total, PlainSum(o, data)) by {
        assert data == [data[0]] + data[1..];
        OddStart(o, data[0], data[1..]);
      }
    } else {
      assert Total2(o, odd, data) == PlainSum(o, data);
      assert odd ==> PlainSum(o, data) == 0;
    }
  }

  lemma {:induction false} OddStart(o: Order, x: byte, s: seq<byte>)
    ensures Same(256 * (Word(o, 0, x) + PlainSum(o, s)), PlainSum(o, [x] + s))
  {
    PlainConsSame(o, x, s);
    OddWord(o, x, PlainSum(o, s));
  }

  lemma {:induction false} OddWord(o: Order, x: byte, rest: nat)
    ensures Same(256 * (Word(o, 0, x) + rest), Word(o, x, 0) + 256 * rest)
  {
    SameBy(256 * (Word(o, 0, x) + rest), Word(o, x, 0) + 256 * rest, if o.Little? then x else 0);
  }

  lemma {:induction false} FinishSame(odd: bool, sum: nat)
    requires sum < U32
    ensures Finish(odd, sum) <= M && Same(Finish(odd, sum), if odd then 256 * sum else sum)
  {
    var c := Fold(Fold(sum));
    FoldTwice(sum);
    SwapSame(c);
    if odd {
      SameTimes256(c, sum);
    }
  }

  /** Without wrap-around version 2 is the reference, whatever the alignment. */
  lemma {:induction false} Version2Correct(o: Order, odd: bool, data: seq<byte>)
    requires Total2(o, odd, data) < U32
    ensures Finish(odd, Total2(o, odd, data)) == RefSum(o, data)
  {
    var total := Total2(o, odd, data);
    FinishSame(odd, total);
    Total2Same(o, odd, data);
    Delivers(o, data, Finish(odd, total));
  }

  /** The documented length limit is safe: nothing wraps up to and including 0x20000 bytes. */
  lemma {:induction false} NoWrap(o: Order, odd: bool, data: seq<byte>)
    requires |data| <= 0x20000
    ensures Total2(o, odd, data) < U32 && PlainSum(Big, data) < U32
  {
    PlainBound(Big, data);
    PlainBound(o, data);
    if odd && |data| > 0 { PlainBound(o, data[1..]); }
  }

  /** Beyond it, for any length an int can hold, version 2 is right exactly when the sum did not wrap. */
  lemma {:induction false} Version2RightIff(o: Order, odd: bool, data: seq<byte>)
    requires |data| < 0x8000_0000
    ensures Finish(odd, Total2(o, odd, data) % U32) == RefSum(o, data) <==> Total2(o, odd, data) < U32
  {
    var total := Total2(o, odd, data);
    if total < U32 {
      Version2Correct(o, odd, data);
      assert total % U32 == total;
    }
    if Finish(odd, total % U32) == RefSum(o, data) { RightMeansNoWrap(o, odd, data); }
  }

  /** So is version 1, which always sums in network order. */
  lemma {:induction false} Version1RightIff(o: Order, data: seq<byte>)
    requires |data| < 0x8000_0000
    ensures Finish1(o, PlainSum(Big, data) % U32) == RefSum(o, data) <==> PlainSum(Big, data) < U32
  {
    var total := PlainSum(Big, data);
    var u := total % U32;
    if total < U32 {
      SmallMod(total);
      Version1Correct(o, data);
    }
    if Finish1(o, u) == RefSum(o, data) {
      assert Same(u, total) by {
        Finish1Same(o, u);
        RefIsPlain(o, data);
        SameInNetworkOrder(o, data, u);
      }
      Total2Bound(Big, false, data);
      WrapVisible(u, total / U32, total);
    }
  }

  lemma {:induction false} SameInNetworkOrder(o: Order, data: seq<byte>, u: nat)
    requires Same(if o.Little? then 256 * u else u, PlainSum(o, data))
    ensures Same(u, PlainSum(Big, data))
  {
    OrdersSwapped(data);
    SameAfterSwap(o.Little?, u, PlainSum(Big, data));
  }

  /**
   Version 3 being right always, the three agree, at any length, alignment and byte order, if and only if neither of the
   other two sums wraps.
   */
  lemma {:induction false} VersionsAgreeIff(o: Order, odd: bool, data: seq<byte>)
    requires |data| < 0x8000_0000
    ensures var v1, v2 := Finish1(o, PlainSum(Big, data) % U32), Finish(odd, Total2(o, odd, data) % U32);
      v1 == RefSum(o, data) && v2 == RefSum(o, data) <==> PlainSum(Big, data) < U32 && Total2(o, odd, data) < U32
  {
    Version1RightIff(o, data);
    Version2RightIff(o, odd, data);
  }

  /** That is so up to the documented length. */
  lemma {:induction false} VersionsAgree(o: Order, odd: bool, data: seq<byte>)
    requires |data| <= 0x20000
    ensures Finish1(o, PlainSum(Big, data) % U32) == RefSum(o, data)
    ensures Finish(odd, Total2(o, odd, data) % U32) == RefSum(o, data)
  {
    NoWrap(o, odd, data);
    VersionsAgreeIff(o, odd, data);
  }

  function AllOnes(n: nat): seq<byte> {
    seq(2 * n, _ => 255)
  }

  lemma {:induction false} AllOnesSum(o: Order, n: nat)
    ensures PlainSum(o, AllOnes(n)) == M * n
  {
    if 0 < n {
      AllOnesSum(o, n - 1);
      assert AllOnes(n)[2..] == AllOnes(n - 1);
    }
  }

  /** 131076 bytes of 255, four more than documented: versions 1 and 2 are both wrong. */
  lemma {:induction false} WrongBeyond(o: Order, n: nat)
    requires n == 65538
    ensures |AllOnes(n)| == 0x20000 + 4
    ensures Finish1(o, PlainSum(Big, AllOnes(n)) % U32) != RefSum(o, AllOnes(n))
    ensures Finish(false, Total2(o, false, AllOnes(n)) % U32) != RefSum(o, AllOnes(n))
  {
    AllOnesSum(Big, n);
    AllOnesSum(o, n);
    Version1RightIff(o, AllOnes(n));
    Version2RightIff(o, false, AllOnes(n));
  }

  lemma {:induction false} SmallMod(a: nat)
    requires a < U32
    ensures a % U32 == a
  {
  }

  lemma {:induction false} RightMeansNoWrap(o: Order, odd: bool, data: seq<byte>)
    requires |data| < 0x8000_0000 && Finish(odd, Total2(o, odd, data) % U32) == RefSum(o, data)
    ensures Total2(o, odd, data) < U32
  {
    var total := Total2(o, odd, data);
    var u, q := total % U32, total / U32;
    assert Same(u, total) by { RightMeansSame(o, odd, data, u); }
    Total2Bound(o, odd, data);
    WrapVisible(u, q, total);
  }

  lemma {:induction false} RightMeansSame(o: Order, odd: bool, data: seq<byte>, u: nat)
    requires u < U32 && Finish(odd, u) == RefSum(o, data)
    ensures Same(u, Total2(o, odd, data))
  {
    var total := Total2(o, odd, data);
    FinishSame(odd, u);
    RefIsPlain(o, data);
    Total2Same(o, odd, data);
    SameAfterSwap(odd, u, total);
  }

  lemma {:induction false} SameAfterSwap(odd: bool, a: nat, b: nat)
    requires Same(if odd then 256 * a else a, if odd then 256 * b else b)
    ensures Same(a, b)
  {
    if odd {
      SameTimes256(256 * a, 256 * b);
      SameTwice256(a);
      SameTwice256(b);
    }
  }

  /** Losing q times 2^32 changes the number by q. */
  lemma {:induction false} WrapVisible(u: nat, q: nat, total: nat)
    requires total == u + q * U32 && Same(u, total) && q < M
    ensures q == 0
  {
    var k := SameDiffers(total, u);
    assert q == (k - q * 65537) * M;
  }

  lemma {:induction false} Total2Bound(o: Order, odd: bool, data: seq<byte>)
    requires |data| < 0x8000_0000
    ensures Total2(o, odd, data) / U32 < M
  {
    PlainBound(o, data);
    if odd && |data| > 0 { PlainBound(o, data[1..]); }
  }

  // ----- version 3: eight bytes at a time with end-around carry -----

  /** A 32-bit word in host order. */
  function LongWord(o: Order, b0: byte, b1: byte, b2: byte, b3: byte): (w: nat)
    ensures w < U32
  {
    if o.Little? then Word(o, b0, b1) + 65536 * Word(o, b2, b3) else 65536 * Word(o, b0, b1) + Word(o, b2, b3)
  }

  lemma {:induction false} LongWordSame(o: Order, b0: byte, b1: byte, b2: byte, b3: byte)
    ensures Same(LongWord(o, b0, b1, b2, b3), Word(o, b0, b1) + Word(o, b2, b3))
  {
    SameBy(LongWord(o, b0, b1, b2, b3), Word(o, b0, b1) + Word(o, b2, b3),
           if o.Little? then Word(o, b2, b3) else Word(o, b0, b1));
  }

  /** u32 addition with the carry added back, detected by the result being smaller than the first summand. */
  function AddCarry(sum: nat, x: nat): (r: nat)
    requires sum < U32 && x < U32
    ensures r < U32
  {
    var tmp := (sum + x) % U32;
    if tmp < sum then tmp + 1 else tmp
  }

  lemma {:induction false} AddCarrySame(sum: nat, x: nat)
    requires sum < U32 && x < U32
    ensures Same(AddCarry(sum, x), sum + x)
  {
    if sum + x < U32 {
      assert AddCarry(sum, x) == sum + x;
    } else {
      assert AddCarry(sum, x) == sum + x - U32 + 1;
      SameBy(sum + x, AddCarry(sum, x), 65537);
    }
  }

  method Version3(o: Order, addr: nat, data: seq<byte>) returns (r: nat)
    ensures r == RefSum(o, data)
  {
    var t1: byte, i, sum := 0, 0, 0;
    var odd := addr % 2 == 1;
    if odd && |data| > 0 {
      t1 := data[0];
      i := 1;
    }
    ghost var first, total: nat := i, 0;
    if (addr + i) % 4 != 0 && |data| - i > 1 {
      PeelWord(o, data, i);
      sum := sum + Word(o, data[i], data[i + 1]);
      total := sum;
      i := i + 2;
    }
    sum, i, total := LongLoop(o, data, first, i, sum, total);
    r := CloseSum(o, odd, data, i, sum, t1, total);
  }

  /** The fold, the words left over, the end bytes and the final folds. */
  method CloseSum(o: Order, odd: bool, data: seq<byte>, i: nat, sum0: nat, t1: byte, ghost total0: nat) returns (r: nat)
    requires t1 == (if odd && |data| > 0 then data[0] else 0) && sum0 < U32 && Same(sum0, total0)
    requires var first := if odd && |data| > 0 then 1 else 0;
      && first <= i <= |data| && |data| - i <= 7 && total0 + PlainSum(o, data[i..]) == PlainSum(o, data[first..])
    ensures r == RefSum(o, data)
  {
    ghost var first := if odd && |data| > 0 then 1 else 0;
    FoldRoom(sum0);
    var sum, t0: byte;
    ghost var total;
    sum, t0, total := Tail(o, data, first, i, Fold(sum0), total0);
    CloseDelivers(o, odd, data, sum, total, t0, t1);
    r := Finish(odd, sum + Word(o, t0, t1));
  }

  lemma {:induction false} CloseDelivers(o: Order, odd: bool, data: seq<byte>, sum: nat, total: nat, t0: byte, t1: byte)
    requires sum <= 9 * M && Same(sum, total) && t1 == if odd && |data| > 0 then data[0] else 0
    requires total + Word(o, t0, 0) == PlainSum(o, data[if odd && |data| > 0 then 1 else 0..])
    ensures Finish(odd, sum + Word(o, t0, t1)) == RefSum(o, data)
  {
    EndBytes(o, odd, data, total, t0);
    SameAdd(sum, Word(o, t0, t1), total, Word(o, t0, t1));
    FinishDelivers(o, odd, data, sum + Word(o, t0, t1));
  }

  lemma {:induction false} FinishDelivers(o: Order, odd: bool, data: seq<byte>, sum: nat)
    requires sum < U32 && Same(sum, Total2(o, odd, data))
    ensures Finish(odd, sum) == RefSum(o, data)
  {
    var total := Total2(o, odd, data);
    FinishSame(odd, sum);
    SameTimes256(sum, total);
    Total2Same(o, odd, data);
    Delivers(o, data, Finish(odd, sum));
  }

  /** The loop over 8 bytes, "ping" and "pong". */
  method LongLoop(o: Order, data: seq<byte>, ghost first: nat, from: nat, sum0: nat, ghost total0: nat)
    returns (sum: nat, i: nat, ghost total: nat)
    requires first <= from <= |data| && sum0 < U32 && Same(sum0, total0)
    requires total0 + PlainSum(o, data[from..]) == PlainSum(o, data[first..])
    ensures from <= i <= |data| && |data| - i <= 7 && sum < U32 && Same(sum, total)
    ensures total + PlainSum(o, data[i..]) == PlainSum(o, data[first..])
  {
    sum, i, total := sum0, from, total0;
    while |data| - i > 7
      invariant from <= i <= |data| && sum < U32 && Same(sum, total)
      invariant total + PlainSum(o, data[i..]) == PlainSum(o, data[first..])
      decreases |data| - i
    {
      sum, total := Eight(o, data, i, sum, total);
      i := i + 8;
    }
  }

  method Eight(o: Order, data: seq<byte>, i: nat, sum0: nat, ghost total0: nat) returns (sum: nat, ghost total: nat)
    requires i + 8 <= |data| && sum0 < U32 && Same(sum0, total0)
    ensures sum < U32 && Same(sum, total)
    ensures total + PlainSum(o, data[i + 8..]) == total0 + PlainSum(o, data[i..])
  {
    sum, total := PingPong(o, data, i, sum0, total0);
    sum, total := PingPong(o, data, i + 4, sum, total);
  }

  /** One 32-bit word added. */
  method PingPong(o: Order, data: seq<byte>, i: nat, sum0: nat, ghost total0: nat) returns (sum: nat, ghost total: nat)
    requires i + 4 <= |data| && sum0 < U32 && Same(sum0, total0)
    ensures sum < U32 && Same(sum, total)
    ensures total + PlainSum(o, data[i + 4..]) == total0 + PlainSum(o, data[i..])
  {
    var long := LongWord(o, data[i], data[i + 1], data[i + 2], data[i + 3]);
    var tmp := (sum0 + long) % U32;
    if tmp < sum0 {
      tmp := tmp + 1;
    }
    sum := tmp;
    ghost var two := Word(o, data[i], data[i + 1]) + Word(o, data[i + 2], data[i + 3]);
    AddCarrySame(sum0, long);
    LongWordSame(o, data[i], data[i + 1], data[i + 2], data[i + 3]);
    SameAdd(sum0, long, total0, two);
    total := total0 + two;
    PeelWord(o, data, i);
    PeelWord(o, data, i + 2);
  }

  /** The 16-bit words left over, and the odd byte. */
  method Tail(o: Order, data: seq<byte>, ghost first: nat, from: nat, sum0: nat, ghost total0: nat)
    returns (sum: nat, last: byte, ghost total: nat)
    requires first <= from <= |data| && |data| - from <= 7 && sum0 <= 2 * M && Same(sum0, total0)
    requires total0 + PlainSum(o, data[from..]) == PlainSum(o, data[first..])
    ensures sum <= 9 * M && Same(sum, total)
    ensures total + Word(o, last, 0) == PlainSum(o, data[first..])
  {
    sum, total := sum0, total0;
    var i := from;
    last := 0;
    while |data| - i > 1
      invariant from <= i <= |data| && sum <= 2 * M + M * (i - from) && Same(sum, total)
      invariant total + PlainSum(o, data[i..]) == PlainSum(o, data[first..])
      decreases |data| - i
    {
      var w := Word(o, data[i], data[i + 1]);
      PeelWord(o, data, i);
      SameAdd(sum, w, total, w);
      sum, total := sum + w, total + w;
      i := i + 2;
    }
    if |data| - i > 0 {
      last := data[i];
    }
  }

  lemma {:induction false} PeelWord(o: Order, data: seq<byte>, i: nat)
    requires i + 2 <= |data|
    ensures PlainSum(o, data[i..]) == Word(o, data[i], data[i + 1]) + PlainSum(o, data[i + 2..])
  {
    assert data[i..][2..] == data[i + 2..];
  }

  /** The fold before it makes room for those words. */
  lemma {:induction false} FoldRoom(u: nat)
    requires u < U32
    ensures Fold(u) <= 2 * M && Same(Fold(u), u)
  {
    FoldSame(u);
  }
}
