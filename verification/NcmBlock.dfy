/**
 Network transfer blocks: the byte layout of an NTB16 as lib/ncm writes and reads it
 (sections 3.2.1 and 3.3.1 of USB CDC NCM 1.0).

 offset 0: NTH16 (12 bytes), 12: NDP16 (8 bytes), 20: nine datagram entries (36 bytes), 56: datagrams.
 */
module NcmBlock {
  import opened Bytes

  const NTB_SIZE := 3200
  const MAX_DATAGRAMS := 8
  const FIRST_DATAGRAM := 56
  const NTH16_SIGNATURE := 0x484D434E
  const NDP16_SIGNATURE := 0x304D434E

  // ----- little-endian fields -----

  function U16(data: seq<byte>, at: nat): (v: nat)
    requires at + 2 <= |data|
    ensures v < 0x1_0000
  {
    (data[at] as int) + 256 * (data[at + 1] as int)
  }

  function U32(data: seq<byte>, at: nat): nat
    requires at + 4 <= |data|
  {
    U16(data, at) + 0x1_0000 * U16(data, at + 2)
  }

  function PutU16(data: seq<byte>, at: nat, v: nat): (r: seq<byte>)
    requires at + 2 <= |data| && v < 0x1_0000
    ensures |r| == |data|
    ensures U16(r, at) == v
    ensures forall i :: 0 <= i < |data| && i != at && i != at + 1 ==> r[i] == data[i]
  {
    data[at := v % 256][at + 1 := v / 256]
  }

  function PutU32(data: seq<byte>, at: nat, v: nat): (r: seq<byte>)
    requires at + 4 <= |data| && v < 0x1_0000_0000
    ensures |r| == |data|
    ensures U32(r, at) == v
    ensures forall i :: 0 <= i < |data| && !(at <= i < at + 4) ==> r[i] == data[i]
  {
    PutU16(PutU16(data, at, v % 0x1_0000), at + 2, v / 0x1_0000)
  }

  /** data with the bytes of d stored from offset at on. */
  function PutBytes(data: seq<byte>, at: nat, d: seq<byte>): (r: seq<byte>)
    requires at + |d| <= |data|
    ensures |r| == |data| && r[at..at + |d|] == d
    ensures forall i :: 0 <= i < |data| && !(at <= i < at + |d|) ==> r[i] == data[i]
  {
    data[..at] + d + data[at + |d|..]
  }

  // ----- the layout of a sequence of datagrams -----

  /** ALIGN_OFFSET: bytes that bring size up to a multiple of 4. */
  function Pad(size: nat): (p: nat)
    ensures p < 4 && (size + p) % 4 == 0
  {
    (4 - size % 4) % 4
  }

  /** Where datagram i starts; for i = |ds|, where the block ends. */
  function Offset(ds: seq<seq<byte>>, i: nat): nat
    requires i <= |ds|
  {
    if i == 0 then FIRST_DATAGRAM else Offset(ds, i - 1) + |ds[i - 1]| + Pad(|ds[i - 1]|)
  }

  function End(ds: seq<seq<byte>>): nat {
    Offset(ds, |ds|)
  }

  ghost predicate HeaderOk(data: seq<byte>, sequence: nat)
    requires |data| == NTB_SIZE
  {
    && U32(data, 0) == NTH16_SIGNATURE && U16(data, 4) == 12 && U16(data, 6) == sequence && U16(data, 10) == 12
    && U32(data, 12) == NDP16_SIGNATURE && U16(data, 16) == 44 && U16(data, 18) == 0
  }

  /** Entry i of the table and the bytes it points to are datagram i. */
  ghost predicate EntryOk(data: seq<byte>, ds: seq<seq<byte>>, i: nat)
    requires |data| == NTB_SIZE && i < |ds| <= MAX_DATAGRAMS
  {
    && U16(data, 20 + 4 * i) == Offset(ds, i) && U16(data, 22 + 4 * i) == |ds[i]|
    && Offset(ds, i) + |ds[i]| <= NTB_SIZE && data[Offset(ds, i)..Offset(ds, i) + |ds[i]|] == ds[i]
  }

  ghost predicate EntryZero(data: seq<byte>, i: nat)
    requires |data| == NTB_SIZE && i <= MAX_DATAGRAMS
  {
    U16(data, 20 + 4 * i) == 0 && U16(data, 22 + 4 * i) == 0
  }

  /** data is a block that carries exactly the datagrams ds, in order, closed by a zero entry. */
  ghost predicate Packed(data: seq<byte>, ds: seq<seq<byte>>) {
    && |data| == NTB_SIZE && |ds| <= MAX_DATAGRAMS && End(ds) <= NTB_SIZE
    && (exists s :: HeaderOk(data, s))
    && U16(data, 8) == End(ds)
    && (forall i :: 0 <= i < |ds| ==> EntryOk(data, ds, i))
    && (forall i :: |ds| <= i <= MAX_DATAGRAMS ==> EntryZero(data, i))
  }

  // ----- what the transmit side writes -----

  /** tx_accept_user_ntb: a fresh header and a table of nine zero entries. */
  function Opened(data: seq<byte>, sequence: nat): (r: seq<byte>)
    requires |data| == NTB_SIZE && sequence < 0x1_0000
    ensures |r| == NTB_SIZE
  {
    var start := PutU16(PutU16(PutU32(data, 0, NTH16_SIGNATURE), 4, 12), 6, sequence);
    var nth := PutU16(PutU16(start, 8, FIRST_DATAGRAM), 10, 12);
    var ndp := PutU16(PutU16(PutU32(nth, 12, NDP16_SIGNATURE), 16, 44), 18, 0);
    PutBytes(ndp, 20, seq(36, _ => 0))
  }

  /** net_tx: the datagram behind the others, its table entry n, and the new block length. */
  function Appended(data: seq<byte>, n: nat, d: seq<byte>): (r: seq<byte>)
    requires |data| == NTB_SIZE && n < MAX_DATAGRAMS && U16(data, 8) + |d| + Pad(|d|) <= NTB_SIZE
    ensures |r| == NTB_SIZE
  {
    var at := U16(data, 8);
    var filled := PutBytes(data, at, d);
    PutU16(PutU16(PutU16(filled, 20 + 4 * n, at), 22 + 4 * n, |d|), 8, at + |d| + Pad(|d|))
  }

  lemma {:induction false} OpenedPacked(data: seq<byte>, sequence: nat)
    requires |data| == NTB_SIZE && sequence < 0x1_0000
    ensures Packed(Opened(data, sequence), []) && HeaderOk(Opened(data, sequence), sequence)
  {
    var r := Opened(data, sequence);
    assert HeaderOk(r, sequence);
    var zeros: seq<byte> := seq(36, _ => 0);
    assert r[20..56] == zeros;
    forall i | 0 <= i <= MAX_DATAGRAMS ensures EntryZero(r, i) {
      assert forall k :: 0 <= k < 36 ==> r[20 + k] == zeros[k];
    }
  }

  /** Datagrams lie in disjoint slots, one behind the other, from offset 56 on, each slot 4-aligned. */
  lemma {:induction false} SlotsInOrder(ds: seq<seq<byte>>, i: nat, j: nat)
    requires i < j <= |ds|
    ensures FIRST_DATAGRAM <= Offset(ds, i) && Offset(ds, i) % 4 == 0
    ensures Offset(ds, i) + |ds[i]| <= Offset(ds, j)
    ensures j == i + 1 ==> Offset(ds, j) == Offset(ds, i) + |ds[i]| + Pad(|ds[i]|)
  {
    OffsetAligned(ds, i);
    if i + 1 < j { SlotsInOrder(ds, i, j - 1); }
  }

  lemma {:induction false} OffsetAligned(ds: seq<seq<byte>>, i: nat)
    requires i <= |ds|
    ensures FIRST_DATAGRAM <= Offset(ds, i) && Offset(ds, i) % 4 == 0
  {
    if 0 < i {
      OffsetAligned(ds, i - 1);
      AlignedSum(Offset(ds, i - 1), |ds[i - 1]|);
    }
  }

  lemma {:induction false} AlignedSum(at: nat, size: nat)
    requires at % 4 == 0
    ensures (at + size + Pad(size)) % 4 == 0
  {
  }

  lemma {:induction false} OffsetPrefix(ds: seq<seq<byte>>, d: seq<byte>, i: nat)
    requires i <= |ds|
    ensures Offset(ds + [d], i) == Offset(ds, i)
  {
    if 0 < i { OffsetPrefix(ds, d, i - 1); }
  }

  lemma {:induction false} EndGrows(ds: seq<seq<byte>>, d: seq<byte>)
    ensures End(ds + [d]) == End(ds) + |d| + Pad(|d|)
  {
    OffsetPrefix(ds, d, |ds|);
  }

  /** The three places net_tx writes to. */
  lemma {:induction false} AppendedKeeps(data: seq<byte>, n: nat, d: seq<byte>, i: nat)
    requires |data| == NTB_SIZE && n < MAX_DATAGRAMS && FIRST_DATAGRAM <= U16(data, 8)
    requires U16(data, 8) + |d| + Pad(|d|) <= NTB_SIZE && i < NTB_SIZE
    ensures var r := Appended(data, n, d);
      8 <= i < 10 || 20 + 4 * n <= i < 24 + 4 * n || U16(data, 8) <= i < U16(data, 8) + |d| || r[i] == data[i]
  {
  }

  lemma {:induction false} AppendedWrites(data: seq<byte>, n: nat, d: seq<byte>)
    requires |data| == NTB_SIZE && n < MAX_DATAGRAMS && FIRST_DATAGRAM <= U16(data, 8)
    requires U16(data, 8) + |d| + Pad(|d|) <= NTB_SIZE
    ensures var r, at := Appended(data, n, d), U16(data, 8);
      && U16(r, 8) == at + |d| + Pad(|d|) && U16(r, 20 + 4 * n) == at && U16(r, 22 + 4 * n) == |d|
      && r[at..at + |d|] == d
  {
    var at := U16(data, 8);
    var a := PutBytes(data, at, d);
    var b := PutU16(a, 20 + 4 * n, at);
    var e := PutU16(b, 22 + 4 * n, |d|);
    assert U16(e, 20 + 4 * n) == at;
    var r := PutU16(e, 8, at + |d| + Pad(|d|));
    assert forall k :: at <= k < at + |d| ==> r[k] == a[k];
    assert r[at..at + |d|] == a[at..at + |d|];
  }

  lemma {:induction false} OldEntryStays(data: seq<byte>, ds: seq<seq<byte>>, d: seq<byte>, i: nat)
    requires Packed(data, ds) && |ds| < MAX_DATAGRAMS && End(ds) + |d| + Pad(|d|) <= NTB_SIZE && i < |ds|
    ensures FIRST_DATAGRAM <= End(ds) && EntryOk(Appended(data, |ds|, d), ds + [d], i)
  {
    var r := Appended(data, |ds|, d);
    assert EntryOk(data, ds, i);
    OffsetPrefix(ds, d, i);
    OffsetAligned(ds, |ds|);
    SlotsInOrder(ds, i, |ds|);
    var at := Offset(ds, i);
    forall k | 20 + 4 * i <= k < 24 + 4 * i ensures r[k] == data[k] { AppendedKeeps(data, |ds|, d, k); }
    forall k | at <= k < at + |ds[i]| ensures r[k] == data[k] { AppendedKeeps(data, |ds|, d, k); }
    assert r[at..at + |ds[i]|] == data[at..at + |ds[i]|];
  }

  lemma {:induction false} ZeroEntryStays(data: seq<byte>, ds: seq<seq<byte>>, d: seq<byte>, i: nat)
    requires Packed(data, ds) && |ds| < i <= MAX_DATAGRAMS && End(ds) + |d| + Pad(|d|) <= NTB_SIZE
    ensures EntryZero(Appended(data, |ds|, d), i)
  {
    var r := Appended(data, |ds|, d);
    OffsetAligned(ds, |ds|);
    assert EntryZero(data, i);
    forall k | 20 + 4 * i <= k < 24 + 4 * i ensures r[k] == data[k] { AppendedKeeps(data, |ds|, d, k); }
  }

  lemma {:induction false} HeaderStays(data: seq<byte>, ds: seq<seq<byte>>, d: seq<byte>, s: nat)
    requires Packed(data, ds) && |ds| < MAX_DATAGRAMS && End(ds) + |d| + Pad(|d|) <= NTB_SIZE && HeaderOk(data, s)
    ensures HeaderOk(Appended(data, |ds|, d), s)
  {
    var r := Appended(data, |ds|, d);
    OffsetAligned(ds, |ds|);
    forall k | 0 <= k < 8 || 10 <= k < 20 ensures r[k] == data[k] { AppendedKeeps(data, |ds|, d, k); }
  }

  /** Appending to a block that carries ds gives a block that carries ds + [d]. */
  lemma {:induction false} AppendedPacked(data: seq<byte>, ds: seq<seq<byte>>, d: seq<byte>)
    requires Packed(data, ds) && |ds| < MAX_DATAGRAMS && End(ds) + |d| + Pad(|d|) <= NTB_SIZE
    ensures Packed(Appended(data, |ds|, d), ds + [d])
  {
    var r, ns := Appended(data, |ds|, d), ds + [d];
    NewEntry(data, ds, d);
    var s :| HeaderOk(data, s);
    HeaderStays(data, ds, d, s);
    forall i | 0 <= i < |ns| ensures EntryOk(r, ns, i) {
      if i < |ds| { OldEntryStays(data, ds, d, i); }
    }
    forall i | |ns| <= i <= MAX_DATAGRAMS ensures EntryZero(r, i) { ZeroEntryStays(data, ds, d, i); }
  }

  lemma {:induction false} NewEntry(data: seq<byte>, ds: seq<seq<byte>>, d: seq<byte>)
    requires Packed(data, ds) && |ds| < MAX_DATAGRAMS && End(ds) + |d| + Pad(|d|) <= NTB_SIZE
    ensures var r, ns := Appended(data, |ds|, d), ds + [d]; EntryOk(r, ns, |ds|) && U16(r, 8) == End(ns) <= NTB_SIZE
  {
    OffsetAligned(ds, |ds|);
    OffsetPrefix(ds, d, |ds|);
    EndGrows(ds, d);
    AppendedWrites(data, |ds|, d);
  }

  /**
   A block is its first wBlockLength bytes: whatever follows them in another buffer, it carries the same datagrams.
   */
  lemma {:induction false} WirePacked(data: seq<byte>, buffer: seq<byte>, ds: seq<seq<byte>>)
    requires Packed(data, ds) && |buffer| == NTB_SIZE && data[..End(ds)] <= buffer
    ensures Packed(buffer, ds)
  {
    OffsetAligned(ds, |ds|);
    assert forall k :: 0 <= k < End(ds) ==> data[..End(ds)][k] == buffer[k];
    var s :| HeaderOk(data, s);
    assert HeaderOk(buffer, s);
    forall i | 0 <= i < |ds| ensures EntryOk(buffer, ds, i) {
      assert EntryOk(data, ds, i);
      SlotsInOrder(ds, i, |ds|);
      assert buffer[Offset(ds, i)..Offset(ds, i) + |ds[i]|] == ds[i];
    }
    forall i | |ds| <= i <= MAX_DATAGRAMS ensures EntryZero(buffer, i) {
      assert EntryZero(data, i);
    }
  }
}
