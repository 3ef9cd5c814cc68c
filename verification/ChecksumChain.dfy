/**
 Checksums over pbuf chains, with and without pseudo header (lib/lwip/src/core/inet_chksum.c).
 Pieces of odd length leave the running sum byte-swapped; the code swaps it along and back.
 */
module ChecksumChain {
  import opened Bytes
  import opened OnesComplement
  import opened Checksum

  /** A pbuf: where its payload lies in memory, and the payload. */
  datatype Pbuf = Pbuf(addr: nat, payload: seq<byte>)

  predicate Sized(chain: seq<Pbuf>) {
    forall k :: 0 <= k < |chain| ==> |chain[k].payload| < 0x1_0000
  }

  /** The payload of the whole chain. */
  function Flat(chain: seq<Pbuf>): seq<byte> {
    if chain == [] then [] else chain[0].payload + Flat(chain[1..])
  }

  /** LWIP_CHKSUM is version 2 here; lengths of 16 bits never make it wrap. */
  method Chksum(o: Order, addr: nat, data: seq<byte>) returns (r: nat)
    requires |data| <= 0x20000
    ensures r == RefSum(o, data)
  {
    var odd := addr % 2 == 1;
    r := Version2(o, odd, data);
    VersionsAgree(o, odd, data);
  }

  /** inet_chksum */
  method InetChksum(o: Order, addr: nat, data: seq<byte>) returns (r: nat)
    requires |data| < 0x1_0000
    ensures r == M - RefSum(o, data)
  {
    var sum := Chksum(o, addr, data);
    r := M - sum;
  }

  // ----- one pbuf -----

  /** A sum as the code keeps it: shifted by a byte while swapped. */
  function Kept(swapped: bool, sum: nat): nat {
    if swapped then 256 * sum else sum
  }

  /** Adding a piece behind n bytes: the flag that says n is odd also says how the piece must be shifted. */
  lemma {:induction false} KeptAdds(o: Order, done: seq<byte>, piece: seq<byte>, acc: nat, sum: nat)
    requires Same(acc, Kept(|done| % 2 == 1, PlainSum(o, done))) && Same(sum, PlainSum(o, piece))
    ensures Same(acc + sum, Kept(|done| % 2 == 1, PlainSum(o, done + piece)))
  {
    var s, p, t := PlainSum(o, done), PlainSum(o, piece), PlainSum(o, done + piece);
    PlainConcatSame(o, done, piece);
    SameAdd(acc, sum, Kept(|done| % 2 == 1, s), p);
    if |done| % 2 == 1 { ShiftedPiece(s, p, t); }
  }

  lemma {:induction false} ShiftedPiece(s: nat, p: nat, t: nat)
    requires Same(t, s + 256 * p)
    ensures Same(256 * s + p, 256 * t)
  {
    SameTimes256(t, s + 256 * p);
    SameTwice256(p);
    SameAdd(256 * s, 256 * (256 * p), 256 * s, p);
    assert 256 * (s + 256 * p) == 256 * s + 256 * (256 * p);
  }

  lemma {:induction false} KeptSwaps(swapped: bool, acc: nat, sum: nat)
    requires acc <= M && Same(acc, Kept(swapped, sum))
    ensures Swap(acc) <= M && Same(Swap(acc), Kept(!swapped, sum))
  {
    SwapSame(acc);
    SameTimes256(acc, Kept(swapped, sum));
    SameTwice256(sum);
  }

  /** The loop body: add the first take bytes of one pbuf, fold, and swap if its length is odd. */
  method AddPbuf(o: Order, q: Pbuf, take: nat, acc: nat, swapped: bool, ghost done: seq<byte>) returns (acc': nat,
                 swapped': bool)
    requires take <= |q.payload| < 0x1_0000 && acc <= M
    requires swapped == (|done| % 2 == 1) && Same(acc, Kept(swapped, PlainSum(o, done)))
    ensures acc' <= M && swapped' == (swapped != (|q.payload| % 2 == 1))
    ensures Same(acc', Kept(swapped', PlainSum(o, done + q.payload[..take])))
  {
    var sum := Chksum(o, q.addr, q.payload[..take]);
    RefIsPlain(o, q.payload[..take]);
    KeptAdds(o, done, q.payload[..take], acc, sum);
    FoldOnce(acc + sum);
    acc', swapped' := Fold(acc + sum), swapped;
    if |q.payload| % 2 != 0 {
      KeptSwaps(swapped, acc', PlainSum(o, done + q.payload[..take]));
      swapped' := !swapped';
      acc' := Swap(acc');
    }
  }

  method SwapBack(acc: nat, swapped: bool, ghost sum: nat) returns (acc': nat)
    requires acc <= M && Same(acc, Kept(swapped, sum))
    ensures acc' <= M && Same(acc', sum)
  {
    KeptSwaps(swapped, acc, sum);
    acc' := if swapped then Swap(acc) else acc;
  }

  lemma {:induction false} FlatSnoc(chain: seq<Pbuf>, k: nat)
    requires k < |chain|
    ensures Flat(chain[..k + 1]) == Flat(chain[..k]) + chain[k].payload
  {
    if k == 0 {
      assert chain[..1] == [chain[0]] && chain[..1][1..] == [];
    } else {
      var rest := chain[1..];
      FlatSnoc(rest, k - 1);
      assert chain[..k + 1][1..] == rest[..k] && chain[..k][1..] == rest[..k - 1];
    }
  }

  // ----- the whole chain -----

  /** The loop over all pbufs, ending with the swap back; head stands for what acc0 already holds. */
  method SumChain(o: Order, chain: seq<Pbuf>, acc0: nat, ghost head: seq<byte>) returns (acc: nat)
    requires Sized(chain) && acc0 <= M && |head| % 2 == 0 && Same(acc0, PlainSum(o, head))
    ensures acc <= M && Same(acc, PlainSum(o, head + Flat(chain)))
  {
    acc := acc0;
    var swapped, k := false, 0;
    assert head + Flat(chain[..0]) == head;
    while k < |chain|
      invariant 0 <= k <= |chain| && acc <= M
      invariant swapped == (|head + Flat(chain[..k])| % 2 == 1)
      invariant Same(acc, Kept(swapped, PlainSum(o, head + Flat(chain[..k]))))
    {
      ghost var done := head + Flat(chain[..k]);
      FlatSnoc(chain, k);
      assert head + Flat(chain[..k + 1]) == done + chain[k].payload;
      assert chain[k].payload[..|chain[k].payload|] == chain[k].payload;
      acc, swapped := AddPbuf(o, chain[k], |chain[k].payload|, acc, swapped, done);
      k := k + 1;
    }
    assert chain[..k] == chain;
    acc := SwapBack(acc, swapped, PlainSum(o, head + Flat(chain)));
  }

  /** inet_chksum_pbuf: however the payload is cut into pbufs, the checksum is that of the whole. */
  method InetChksumPbuf(o: Order, chain: seq<Pbuf>) returns (r: nat)
    requires Sized(chain)
    ensures r == M - RefSum(o, Flat(chain))
  {
    var acc := SumChain(o, chain, 0, []);
    assert [] + Flat(chain) == Flat(chain);
    Delivers(o, Flat(chain), acc);
    r := M - acc;
  }

  // ----- the first limit bytes of a chain -----

  /** The first n bytes of a chain, or all of it. */
  function Front(s: seq<byte>, n: nat): seq<byte> {
    if n <= |s| then s[..n] else s
  }

  /** done is what has been summed before pbuf k, with left bytes to go. */
  ghost predicate FrontInv(chain: seq<Pbuf>, k: nat, limit: nat, left: nat, head: seq<byte>, done: seq<byte>) {
    && k <= |chain| && left <= limit && done == head + Front(Flat(chain[..k]), limit)
    && if 0 < left then left == limit - |Flat(chain[..k])| else limit <= |Flat(chain[..k])|
  }

  lemma {:induction false} FrontStep(chain: seq<Pbuf>, k: nat, limit: nat, left: nat, head: seq<byte>,
                                     done: seq<byte>, chklen: nat)
    requires k < |chain| && 0 < left && FrontInv(chain, k, limit, left, head, done)
    requires chklen == if |chain[k].payload| > left then left else |chain[k].payload|
    ensures FrontInv(chain, k + 1, limit, left - chklen, head, done + chain[k].payload[..chklen])
    ensures chklen < left ==> (|done + chain[k].payload[..chklen]| - |done|) % 2 == |chain[k].payload| % 2
  {
    var flat := Flat(chain[..k]);
    FlatSnoc(chain, k);
    FrontGrows(flat, chain[k].payload, limit);
    assert head + flat + chain[k].payload[..chklen] == head + (flat + chain[k].payload[..chklen]);
  }

  /** The assertion looks at the bytes left after each pbuf, which only get fewer after the first one. */
  ghost predicate AssertedSoFar(chain: seq<Pbuf>, k: nat, limit: nat, left: nat, asserted: bool) {
    if k == 0 || chain == [] then left == limit && !asserted
    else
      && left <= limit && (left <= limit - |chain[0].payload| || left == 0)
      && (asserted <==> 0x7fff <= limit - |chain[0].payload|)
  }

  /**
   The loop of inet_cksum_pseudo_partial_base.  It swaps by the parity of the whole pbuf even when it summed
   only a part of it; that pbuf is then the last one, so no later piece is affected.
   asserted tells whether the "delete me" assertion of the code would fire.
   */
  method SumFront(o: Order, chain: seq<Pbuf>, limit: nat, acc0: nat, ghost head: seq<byte>) returns (acc: nat,
                  asserted: bool)
    requires Sized(chain) && limit < 0x1_0000 && acc0 <= M && |head| % 2 == 0 && Same(acc0, PlainSum(o, head))
    ensures acc <= M && Same(acc, PlainSum(o, head + Front(Flat(chain), limit)))
    ensures asserted <==> chain != [] && 0x7fff <= limit - |chain[0].payload|
  {
    acc, asserted := acc0, false;
    var swapped, k, left := false, 0, limit;
    ghost var done := head;
    assert head + Front(Flat(chain[..0]), limit) == head;
    while k < |chain| && left > 0
      invariant 0 <= k && 0 <= left && FrontInv(chain, k, limit, left, head, done)
      invariant acc <= M && Same(acc, Kept(swapped, PlainSum(o, done)))
      invariant 0 < left ==> swapped == (|done| % 2 == 1)
      invariant AssertedSoFar(chain, k, limit, left, asserted)
    {
      var chklen := if |chain[k].payload| > left then left else |chain[k].payload|;
      acc, swapped := AddPbuf(o, chain[k], chklen, acc, swapped, done);
      FrontStep(chain, k, limit, left, head, done, chklen);
      done := done + chain[k].payload[..chklen];
      left := left - chklen;
      if !(left < 0x7fff) {
        asserted := true;
      }
      k := k + 1;
    }
    FrontOfAll(chain, k, limit);
    assert done == head + Front(Flat(chain), limit);
    acc := SwapBack(acc, swapped, PlainSum(o, done));
  }

  lemma {:induction false} FrontGrows(s: seq<byte>, piece: seq<byte>, n: nat)
    requires |s| <= n
    ensures Front(s + piece, n) == s + piece[..if |piece| > n - |s| then n - |s| else |piece|]
  {
  }

  lemma {:induction false} FlatSplit(chain: seq<Pbuf>, k: nat)
    requires k <= |chain|
    ensures Flat(chain) == Flat(chain[..k]) + Flat(chain[k..])
    decreases |chain| - k
  {
    if k == |chain| {
      assert chain[..k] == chain && chain[k..] == [];
    } else {
      FlatSplit(chain, k + 1);
      FlatSnoc(chain, k);
      assert chain[k..][1..] == chain[k + 1..];
    }
  }

  lemma {:induction false} FrontOfAll(chain: seq<Pbuf>, k: nat, limit: nat)
    requires k <= |chain| && (k == |chain| || limit <= |Flat(chain[..k])|)
    ensures Front(Flat(chain[..k]), limit) == Front(Flat(chain), limit)
  {
    FlatSplit(chain, k);
    assert k == |chain| ==> chain[k..] == [];
  }

  // ----- pseudo headers -----

  /** The pseudo header of RFC 768 and RFC 793: addresses, zero, protocol, length in network order. */
  function PseudoHeader(src: seq<byte>, dest: seq<byte>, proto: byte, len: nat): seq<byte>
    requires len < 0x1_0000
  {
    src + dest + [0, proto] + [len / 256, len % 256]
  }

  /** Sum of both halves of every 32-bit part of two addresses, folded: four parts for IPv6, one for IPv4. */
  method SumAddresses(o: Order, src: seq<byte>, dest: seq<byte>) returns (acc: nat)
    requires |src| == |dest| <= 16 && |src| % 4 == 0
    ensures acc <= M && Same(acc, PlainSum(o, src + dest))
  {
    acc := 0;
    var i := 0;
    while i < |src|
      invariant 0 <= i <= |src| && i % 4 == 0
      invariant acc + PlainSum(o, src[i..]) + PlainSum(o, dest[i..]) == PlainSum(o, src) + PlainSum(o, dest)
    {
      acc := AddHalves(o, src, i, acc);
      acc := AddHalves(o, dest, i, acc);
      i := i + 4;
    }
    FoldAddresses(o, src, dest, acc);
    acc := Fold(Fold(acc));
  }

  lemma {:induction false} FoldAddresses(o: Order, src: seq<byte>, dest: seq<byte>, acc: nat)
    requires |src| == |dest| <= 16 && |src| % 2 == 0 && acc == PlainSum(o, src) + PlainSum(o, dest)
    ensures Fold(Fold(acc)) <= M && Same(Fold(Fold(acc)), PlainSum(o, src + dest))
  {
    PlainBound(o, src);
    PlainBound(o, dest);
    PlainConcatSame(o, src, dest);
    FoldTwice(acc);
  }

  /** Both halves of one 32-bit part. */
  method AddHalves(o: Order, addr: seq<byte>, i: nat, acc0: nat) returns (acc: nat)
    requires i + 4 <= |addr|
    ensures acc + PlainSum(o, addr[i + 4..]) == acc0 + PlainSum(o, addr[i..])
  {
    var part := LongWord(o, addr[i], addr[i + 1], addr[i + 2], addr[i + 3]);
    acc := acc0 + part % 65536;
    acc := acc + part / 65536 % 65536;
    Halves(o, addr[i], addr[i + 1], addr[i + 2], addr[i + 3]);
    PeelWord(o, addr, i);
    PeelWord(o, addr, i + 2);
  }

  lemma {:induction false} Halves(o: Order, b0: byte, b1: byte, b2: byte, b3: byte)
    ensures var l := LongWord(o, b0, b1, b2, b3); l % 65536 + l / 65536 % 65536 == Word(o, b0, b1) + Word(o, b2, b3)
  {
    var l, x, y := LongWord(o, b0, b1, b2, b3), Word(o, b0, b1), Word(o, b2, b3);
    if o.Little? {
      assert l % 65536 == x && l / 65536 == y;
    } else {
      assert l % 65536 == y && l / 65536 == x;
    }
  }

  /** The part common to all forms: protocol and length join the sum; complement. */
  method AddHeader(o: Order, acc0: nat, proto: byte, protoLen: nat, ghost src: seq<byte>, ghost dest: seq<byte>,
                   ghost payload: seq<byte>)
    returns (r: nat)
    requires protoLen < 0x1_0000 && acc0 <= M && |src| % 2 == 0 && |dest| % 2 == 0
    requires Same(acc0, PlainSum(o, src + dest + payload))
    ensures r == M - RefSum(o, PseudoHeader(src, dest, proto, protoLen) + payload)
  {
    var acc := AddFields(o, acc0, proto, protoLen);
    HeaderJoins(o, src, dest, proto, protoLen, payload, acc0);
    FoldDelivers(o, PseudoHeader(src, dest, proto, protoLen) + payload, acc);
    r := M - Fold(Fold(acc));
  }

  method AddFields(o: Order, acc0: nat, proto: byte, protoLen: nat) returns (acc: nat)
    requires protoLen < 0x1_0000 && acc0 <= M
    ensures acc == acc0 + Word(o, 0, proto) + Word(o, protoLen / 256, protoLen % 256)
  {
    HtonsIsWord(o, proto);
    HtonsIsWord(o, protoLen);
    acc := acc0 + Htons(o, proto);
    acc := acc + Htons(o, protoLen);
  }

  lemma {:induction false} FoldDelivers(o: Order, s: seq<byte>, acc: nat)
    requires acc < U32 && Same(acc, PlainSum(o, s))
    ensures Fold(Fold(acc)) == RefSum(o, s)
  {
    FoldTwice(acc);
    Delivers(o, s, Fold(Fold(acc)));
  }

  lemma {:induction false} HtonsIsWord(o: Order, w: nat)
    requires w <= M
    ensures Htons(o, w) == Word(o, w / 256, w % 256)
  {
  }

  lemma {:induction false} HeaderJoins(o: Order, src: seq<byte>, dest: seq<byte>, proto: byte, len: nat,
                                       payload: seq<byte>, acc: nat)
    requires len < 0x1_0000 && |src| % 2 == 0 && |dest| % 2 == 0 && Same(acc, PlainSum(o, src + dest + payload))
    ensures Same(acc + Word(o, 0, proto) + Word(o, len / 256, len % 256),
                 PlainSum(o, PseudoHeader(src, dest, proto, len) + payload))
  {
    var a := src + dest;
    var b: seq<byte> := [0, proto] + [len / 256, len % 256];
    EvenInsert(o, a, b, payload);
    assert PseudoHeader(src, dest, proto, len) + payload == a + b + payload;
    PeelWord(o, b, 0);
    PeelWord(o, b, 2);
    assert b[0..] == b && b[4..] == [];
    SameAdd(acc, PlainSum(o, b), PlainSum(o, a + payload), PlainSum(o, b));
  }

  /** Bytes of even length inserted at an even position just add their sum. */
  lemma {:induction false} EvenInsert(o: Order, a: seq<byte>, b: seq<byte>, c: seq<byte>)
    requires |a| % 2 == 0 && |b| % 2 == 0
    ensures Same(PlainSum(o, a + b + c), PlainSum(o, a + c) + PlainSum(o, b))
  {
    EvenConcat(o, a + b, c);
    EvenConcat(o, a, b);
    EvenConcat(o, a, c);
    Reorder(PlainSum(o, a), PlainSum(o, b), PlainSum(o, c), PlainSum(o, a + b), PlainSum(o, a + c));
  }

  lemma {:induction false} EvenConcat(o: Order, a: seq<byte>, b: seq<byte>)
    requires |a| % 2 == 0
    ensures Same(PlainSum(o, a + b), PlainSum(o, a) + PlainSum(o, b))
  {
    PlainConcatSame(o, a, b);
  }

  lemma {:induction false} Reorder(a: nat, b: nat, c: nat, ab: nat, ac: nat)
    requires Same(ab, a + b) && Same(ac, a + c)
    ensures Same(ab + c, ac + b)
  {
    SameAdd(ab, c, a + b, c);
    SameAdd(ac, b, a + c, b);
  }

  /** inet_chksum_pseudo and ip6_chksum_pseudo */
  method ChksumPseudo(o: Order, chain: seq<Pbuf>, proto: byte, protoLen: nat, src: seq<byte>, dest: seq<byte>)
    returns (r: nat)
    requires Sized(chain) && protoLen < 0x1_0000 && |src| == |dest| <= 16 && |src| % 4 == 0
    ensures r == M - RefSum(o, PseudoHeader(src, dest, proto, protoLen) + Flat(chain))
  {
    var acc := SumAddresses(o, src, dest);
    acc := SumChain(o, chain, acc, src + dest);
    r := AddHeader(o, acc, proto, protoLen, src, dest, Flat(chain));
  }

  /** inet_chksum_pseudo_partial and ip6_chksum_pseudo_partial: over the first chksumLen bytes of the payload */
  method ChksumPseudoPartial(o: Order, chain: seq<Pbuf>, proto: byte, protoLen: nat, chksumLen: nat, src: seq<byte>,
                             dest: seq<byte>)
    returns (r: nat, asserted: bool)
    requires Sized(chain) && protoLen < 0x1_0000 && chksumLen < 0x1_0000 && |src| == |dest| <= 16 && |src| % 4 == 0
    ensures r == M - RefSum(o, PseudoHeader(src, dest, proto, protoLen) + Front(Flat(chain), chksumLen))
    ensures asserted <==> chain != [] && 0x7fff <= chksumLen - |chain[0].payload|
  {
    var acc := SumAddresses(o, src, dest);
    acc, asserted := SumFront(o, chain, chksumLen, acc, src + dest);
    r := AddHeader(o, acc, proto, protoLen, src, dest, Front(Flat(chain), chksumLen));
  }

  // ----- what checksums are for -----

  /**
   Storing the checksum of a message, computed with a zero field, into that field makes the whole message sum to
   all ones, so the same computation over the stored message yields zero (section 1, (3) of RFC 1071).
   */
  lemma {:induction false} StoredChecksumVerifies(o: Order, a: seq<byte>, c0: byte, c1: byte, b: seq<byte>)
    requires |a| % 2 == 0 && Word(o, c0, c1) == M - RefSum(o, a + [0, 0] + b)
    ensures RefSum(o, a + [c0, c1] + b) == M
  {
    var s := RefSum(o, a + [0, 0] + b);
    EvenInsert(o, a, [0, 0], b);
    EvenInsert(o, a, [c0, c1], b);
    assert [0, 0][2..] == [] && [c0, c1][2..] == [];
    assert PlainSum(o, [0, 0]) == 0 && PlainSum(o, [c0, c1]) == M - s;
    RefIsPlain(o, a + [0, 0] + b);
    RefIsPlain(o, a + [c0, c1] + b);
    SameAdd(s, M - s, PlainSum(o, a + b), M - s);
    SameUnique(RefSum(o, a + [c0, c1] + b), M);
  }
}
