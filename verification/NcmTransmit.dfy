/** The transmit side of lib/ncm: packing datagrams into blocks and handing blocks to USB. */
module NcmTransmit {
  import opened Bytes
  import opened Options
  import opened NcmBlock
  import opened NcmLists
  import opened NcmReceive

  // ----- what the blocks hold -----

  /** The datagrams of the blocks opened so far, in order. */
  ghost function Datagrams(held: seq<seq<seq<byte>>>): seq<seq<byte>> {
    if held == [] then [] else Datagrams(held[..|held| - 1]) + held[|held| - 1]
  }

  lemma {:induction false} DatagramsOpen(held: seq<seq<seq<byte>>>)
    ensures Datagrams(held + [[]]) == Datagrams(held)
  {
    assert (held + [[]])[..|held|] == held;
  }

  lemma {:induction false} DatagramsAppend(held: seq<seq<seq<byte>>>, d: seq<byte>)
    requires held != []
    ensures var u := |held| - 1; Datagrams(held[u := held[u] + [d]]) == Datagrams(held) + [d]
  {
    var u := |held| - 1;
    assert held[u := held[u] + [d]][..u] == held[..u];
    assert Datagrams(held[..u]) + (held[u] + [d]) == Datagrams(held[..u]) + held[u] + [d];
  }

  lemma {:induction false} NoDatagrams(held: seq<seq<seq<byte>>>)
    requires held == [] || (|held| == 1 && held[0] == [])
    ensures Datagrams(held) == []
  {
    if held != [] {
      assert held == [] + [[]];
      DatagramsOpen([]);
    }
  }

  /** The first block carries the first datagrams. */
  lemma {:induction false} FirstBlockFirst(held: seq<seq<seq<byte>>>)
    requires held != []
    ensures held[0] <= Datagrams(held)
  {
    if 1 < |held| { FirstBlockFirst(held[..|held| - 1]); }
  }

  lemma {:induction false} DatagramsBound(held: seq<seq<seq<byte>>>)
    requires forall v :: 0 <= v < |held| ==> |held[v]| <= MAX_DATAGRAMS
    ensures |Datagrams(held)| <= MAX_DATAGRAMS * |held|
  {
    if held != [] { DatagramsBound(held[..|held| - 1]); }
  }

  /** Block u carries what it holds. */
  ghost predicate Carries(ntb: seq<seq<byte>>, held: seq<seq<seq<byte>>>, u: nat)
    requires u < |held| <= |ntb|
  {
    Packed(ntb[u], held[u])
  }

  /** Each opened block does. */
  ghost predicate Stock(ntb: seq<seq<byte>>, held: seq<seq<seq<byte>>>) {
    && |held| <= |ntb| == NTB_N
    && (forall u :: 0 <= u < |ntb| ==> |ntb[u]| == NTB_SIZE)
    && (forall u :: 0 <= u < |held| ==> Carries(ntb, held, u))
  }

  /** The blocks carry the accepted datagrams; block 0, cut to its length, is all that USB was ever given. */
  ghost predicate Content(ntb: seq<seq<byte>>, held: seq<seq<seq<byte>>>, started: bool, sent: seq<seq<byte>>,
                          accepted: seq<seq<byte>>) {
    && Stock(ntb, held)
    && accepted == Datagrams(held)
    && (if started then held != [] && End(held[0]) <= |ntb[0]| && sent == [ntb[0][..End(held[0])]] else sent == [])
  }

  lemma {:induction false} OpenContent(ntb: seq<seq<byte>>, held: seq<seq<seq<byte>>>, started: bool,
                                       sent: seq<seq<byte>>,
                                       accepted: seq<seq<byte>>, data: seq<byte>)
    requires Content(ntb, held, started, sent, accepted) && |held| < NTB_N && Packed(data, [])
    ensures Content(ntb[|held| := data], held + [[]], started, sent, accepted)
  {
    DatagramsOpen(held);
    var ntb', held' := ntb[|held| := data], held + [[]];
    forall u | 0 <= u < |held'| ensures Carries(ntb', held', u) { assert u < |held| ==> Carries(ntb, held, u); }
  }

  lemma {:induction false} AppendContent(ntb: seq<seq<byte>>, held: seq<seq<seq<byte>>>, started: bool,
                                         sent: seq<seq<byte>>,
                                         accepted: seq<seq<byte>>, u: nat, data: seq<byte>, d: seq<byte>)
    requires Content(ntb, held, started, sent, accepted) && u == |held| - 1 && (started ==> 0 < u)
    requires Packed(data, held[u] + [d])
    ensures Content(ntb[u := data], held[u := held[u] + [d]], started, sent, accepted + [d])
  {
    DatagramsAppend(held, d);
    var ntb', held' := ntb[u := data], held[u := held[u] + [d]];
    forall v | 0 <= v < |held'| ensures Carries(ntb', held', v) { assert Carries(ntb, held, v); }
  }

  lemma {:induction false} BlockLength(ntb: seq<seq<byte>>, held: seq<seq<seq<byte>>>, u: nat)
    requires Stock(ntb, held) && u < |held|
    ensures |ntb[u]| == NTB_SIZE && U16(ntb[u], 8) == End(held[u]) <= NTB_SIZE && |held[u]| <= MAX_DATAGRAMS
  {
    assert Carries(ntb, held, u);
  }

  /** Does a datagram of this size still fit behind ds? */
  predicate Room(ds: seq<seq<byte>>, size: nat) {
    |ds| < MAX_DATAGRAMS && End(ds) + size + Pad(size) <= NTB_SIZE
  }

  /** The largest datagram an empty block has room for. */
  const MAX_SIZE := 3144

  /** A datagram has room in a block exactly if a well-formed block can carry it behind the others. */
  lemma {:induction false} RoomIff(data: seq<byte>, ds: seq<seq<byte>>, d: seq<byte>)
    requires Packed(data, ds)
    ensures Room(ds, |d|) <==> exists r :: Packed(r, ds + [d])
  {
    EndGrows(ds, d);
    if Room(ds, |d|) { AppendedPacked(data, ds, d); }
  }

  lemma {:induction false} RoomInEmpty(size: nat)
    ensures Room([], size) <==> size <= MAX_SIZE
  {
  }

  lemma {:induction false} FitsSmall(ds: seq<seq<byte>>, size: nat)
    requires Room(ds, size)
    ensures size <= MAX_SIZE
  {
    OffsetAligned(ds, |ds|);
  }

  // ----- where the blocks are -----

  function Count(x: Option<nat>): nat {
    if x.Some? then 1 else 0
  }

  /** Blocks i up to, not including, j. */
  function Span(i: nat, j: nat): seq<nat> {
    if j <= i then [] else if j == i + 1 then [i] else [i, i + 1]
  }

  /**
   Blocks are opened in turn, n so far.  The first may be with USB, the last may be the one the user fills, those
   between wait in order, and the rest are free in order.
   */
  ghost predicate Placed(free: NtbList, wait: NtbList, usbd: Option<nat>, user: Option<nat>, n: nat) {
    && NcmLists.Valid(free) && NcmLists.Valid(wait) && Count(usbd) + Count(user) <= n <= NTB_N
    && (usbd.Some? ==> usbd.value == 0)
    && Contents(wait) == Span(Count(usbd), n - Count(user))
    && (user.Some? ==> user.value == n - 1)
    && Contents(free) == Span(n, NTB_N)
  }

  function Opt(x: Option<nat>): seq<nat> {
    if x.Some? then [x.value] else []
  }

  /** Each block is in exactly one of the USB slot, the wait list, the user slot and the free list. */
  lemma {:induction false} Partition(free: NtbList, wait: NtbList, usbd: Option<nat>, user: Option<nat>, n: nat)
    requires Placed(free, wait, usbd, user, n)
    ensures Opt(usbd) + Contents(wait) + Opt(user) + Contents(free) == Span(0, NTB_N)
  {
  }

  /** Taking the next block for USB. */
  lemma {:induction false} PlacedStart(free: NtbList, wait: NtbList, user: Option<nat>, n: nat)
    requires Placed(free, wait, None, user, n)
    ensures var p := Pop(wait);
      if p.1.Some? then Placed(free, p.0, p.1, user, n)
      else n == Count(user) && Placed(free, wait, user, None, n)
  {
  }

  /** Queueing the open block behind the waiting ones. */
  lemma {:induction false} PlacedQueue(free: NtbList, wait: NtbList, usbd: Option<nat>, u: nat, n: nat)
    requires Placed(free, wait, usbd, Some(u), n) && Push(wait, u).1
    ensures Placed(free, Push(wait, u).0, usbd, None, n)
  {
  }

  /** Opening the next free block. */
  lemma {:induction false} PlacedOpen(free: NtbList, wait: NtbList, usbd: Option<nat>, n: nat)
    requires Placed(free, wait, usbd, None, n)
    ensures var p := Pop(free);
      && (p.1.Some? <==> n < NTB_N)
      && (p.1.Some? ==> p.1 == Some(n) && Placed(p.0, wait, usbd, p.1, n + 1))
  {
  }

  /** The header and the cleared table written by tx_accept_user_ntb. */
  method Populate(data: seq<byte>, sequence: nat) returns (r: seq<byte>)
    requires |data| == NTB_SIZE && sequence < 0x1_0000
    ensures Packed(r, []) && HeaderOk(r, sequence)
  {
    OpenedPacked(data, sequence);
    r := Opened(data, sequence);
  }

  /** The datagram, table entry and block length written by net_tx. */
  method Append(data: seq<byte>, index: nat, d: seq<byte>, ghost ds: seq<seq<byte>>) returns (r: seq<byte>)
    requires Packed(data, ds) && index == |ds| && Room(ds, |d|)
    ensures Packed(r, ds + [d])
  {
    AppendedPacked(data, ds, d);
    r := Appended(data, index, d);
  }

  /**
   Calls into the transmit side, with what USB answers; Give is net_tx of a datagram net_can_tx was last asked about.
   */
  datatype Event =
    | Ask(size: nat, busy: bool)
    | Give(d: seq<byte>, busy: bool)
    | Done(bytes: nat, busy: bool)
    | SetActive(on: bool)

  /** The size net_can_tx last said yes to, until a datagram of that size is given. */
  function Grant(granted: Option<nat>, e: Event, yes: bool): Option<nat> {
    match e
    case Ask(size, _) => if yes then Some(size) else None
    case Give(d, _) => if granted == Some(|d|) then None else granted
    case _ => granted
  }

  function Taken(granted: Option<nat>, e: Event): seq<seq<byte>> {
    if e.Give? && granted == Some(|e.d|) then [e.d] else []
  }

  /** The grant in force after i events with these answers. */
  function Granted(events: seq<Event>, yes: seq<bool>, i: nat): Option<nat>
    requires i <= |events| && i <= |yes|
  {
    if i == 0 then None else Grant(Granted(events, yes, i - 1), events[i - 1], yes[i - 1])
  }

  /** The datagrams given under a grant in the first i events. */
  function AllTaken(events: seq<Event>, yes: seq<bool>, i: nat): seq<seq<byte>>
    requires i <= |events| && i <= |yes|
  {
    if i == 0 then [] else AllTaken(events, yes, i - 1) + Taken(Granted(events, yes, i - 1), events[i - 1])
  }

  lemma {:induction false} GrantedPrefix(events: seq<Event>, yes: seq<bool>, y: bool, i: nat)
    requires i <= |events| && i <= |yes|
    ensures Granted(events, yes + [y], i) == Granted(events, yes, i)
    ensures AllTaken(events, yes + [y], i) == AllTaken(events, yes, i)
  {
    if 0 < i { GrantedPrefix(events, yes, y, i - 1); }
  }

  lemma {:induction false} GrantedStep(events: seq<Event>, yes: seq<bool>, y: bool)
    requires |yes| < |events|
    ensures var n := |yes|;
      && Granted(events, yes + [y], n + 1) == Grant(Granted(events, yes, n), events[n], y)
      && AllTaken(events, yes + [y], n + 1) == AllTaken(events, yes, n) + Taken(Granted(events, yes, n), events[n])
  {
    GrantedPrefix(events, yes, y, |yes|);
  }

  lemma {:induction false} GrantedPositive(events: seq<Event>, yes: seq<bool>, i: nat)
    requires i <= |events| && i <= |yes|
    requires forall k :: 0 <= k < |events| && events[k].Ask? ==> 1 <= events[k].size
    ensures Granted(events, yes, i).Some? ==> 1 <= Granted(events, yes, i).value
  {
    if 0 < i { GrantedPositive(events, yes, i - 1); }
  }

  lemma {:induction false} TakenNonEmpty(events: seq<Event>, yes: seq<bool>, i: nat)
    requires i <= |events| && i <= |yes|
    requires forall k :: 0 <= k < |events| && events[k].Ask? ==> 1 <= events[k].size
    ensures forall k :: 0 <= k < |AllTaken(events, yes, i)| ==> AllTaken(events, yes, i)[k] != []
  {
    if 0 < i {
      TakenNonEmpty(events, yes, i - 1);
      GrantedPositive(events, yes, i - 1);
    }
  }

  class Transmitter {
    var ntb: seq<seq<byte>>
    var free: NtbList
    var wait: NtbList
    var usbd: Option<nat>
    var user: Option<nat>
    var index: nat
    var sequence: nat
    var active: bool
    // what the opened blocks carry, the transfers started, the datagrams taken from the caller
    ghost var held: seq<seq<seq<byte>>>
    ghost var sent: seq<seq<byte>>
    ghost var accepted: seq<seq<byte>>

    ghost predicate Valid()
      reads this
    {
      && Placed(free, wait, usbd, user, |held|) && Content(ntb, held, usbd.Some?, sent, accepted) && sequence < 0x1_0000
      && (user.Some? ==> index == |held[|held| - 1]|)
    }

    /** Blocks queued or given to USB. */
    ghost function Queued(): int
      reads this
    {
      |held| - Count(user)
    }

    /** No block without datagrams is queued or given to USB. */
    ghost predicate NoneEmpty()
      reads this
    {
      Queued() <= NTB_N && (0 < Queued() ==> held[0] != []) && (1 < Queued() ==> held[1] != [])
    }

    /** net_init */
    constructor (blocks: seq<seq<byte>>)
      requires |blocks| == 2 && |blocks[0]| == |blocks[1]| == NTB_SIZE
      ensures Valid() && NoneEmpty() && accepted == [] && sent == [] && ntb == blocks && user == None && !active
    {
      var l := Push(Push(EMPTY, 0).0, 1).0;
      ntb, free, wait, usbd, user, index, sequence, active := blocks, l, EMPTY, None, None, 0, 0, false;
      held, sent, accepted := [], [], [];
    }

    /** tx_datagram_fits_user_ntb */
    method FitsUser(size: nat) returns (r: bool)
      requires Valid()
      ensures r <==> user.Some? && held != [] && Room(held[|held| - 1], size)
    {
      if user == None { return false; }
      BlockLength(ntb, held, user.value);
      if index >= MAX_DATAGRAMS { return false; }
      return U16(ntb[user.value], 8) + size + Pad(size) <= NTB_SIZE;
    }

    /** tx_try_start: with the interface active and USB idle, the first block of the line goes out, once and for all. */
    method TryStart(busy: bool, ok: bool) returns (r: bool)
      requires Valid()
      modifies this`usbd, this`wait, this`user, this`sent
      ensures Valid() && (old(NoneEmpty()) ==> NoneEmpty())
      ensures old(usbd).Some? || !active || busy ==> !r && usbd == old(usbd) && wait == old(wait) && user == old(user)
      ensures old(usbd) == None && active && !busy && accepted != [] ==> usbd.Some?
      ensures r <==> old(usbd) == None && usbd.Some? && ok
      ensures user == old(user) || (user == None && usbd == old(user))
    {
      if usbd.Some? || !active || busy { return false; }
      PlacedStart(free, wait, user, |held|);
      var p := Pop(wait);
      if p.1 == None && (user == None || index == 0) {
        NoDatagrams(held);
        return false;
      }
      if p.1 == None {
        Launch(wait, user.value, None);
      } else {
        Launch(p.0, p.1.value, user);
      }
      r := ok;
    }

    /** usb_transfer_ep of block u. */
    method Launch(newWait: NtbList, u: nat, newUser: Option<nat>)
      requires Valid() && usbd == None && Placed(free, newWait, Some(u), newUser, |held|)
      requires newUser == user || newUser == None
      modifies this`usbd, this`wait, this`user, this`sent
      ensures Valid() && usbd == Some(u) && wait == newWait && user == newUser
    {
      BlockLength(ntb, held, u);
      usbd, wait, user := Some(u), newWait, newUser;
      sent := sent + [ntb[u][..U16(ntb[u], 8)]];
    }

    /** tx_accept_user_ntb, first half: the open block joins the waiting ones if these have room. */
    method Queue() returns (ok: bool)
      requires Valid() && user.Some?
      modifies this`wait, this`user
      ensures Valid() && ok == Push(old(wait), old(user).value).1
      ensures if ok then wait == Push(old(wait), old(user).value).0 && user == None
              else wait == old(wait) && user == old(user)
      ensures old(NoneEmpty()) ==> (NoneEmpty() <==> !ok || old(index) != 0)
    {
      var p := Push(wait, user.value);
      ok := p.1;
      if ok {
        PlacedQueue(free, wait, usbd, user.value, |held|);
        wait, user := p.0, None;
      }
    }

    /** tx_accept_user_ntb, second half: a free block is taken and given a header and an empty table. */
    method Open() returns (ok: bool)
      requires Valid() && user == None
      modifies this`free, this`user, this`index, this`sequence, this`ntb, this`held
      ensures Valid() && ok == (|old(held)| < NTB_N) && ok == user.Some?
      ensures held == if ok then old(held) + [[]] else old(held)
      ensures NoneEmpty() == old(NoneEmpty())
      ensures ok ==> sequence == (old(sequence) + 1) % 0x1_0000 && HeaderOk(ntb[user.value], old(sequence))
      ensures !ok ==> ntb == old(ntb) && sequence == old(sequence)
    {
      PlacedOpen(free, wait, usbd, |held|);
      var p := Pop(free);
      ok := p.1.Some?;
      if ok {
        var data := Populate(ntb[p.1.value], sequence);
        Adopt(p.0, p.1.value, data);
      }
    }

    /** Block n, populated, becomes the open one. */
    method Adopt(rest: NtbList, n: nat, data: seq<byte>)
      requires Valid() && user == None && n == |held| < NTB_N && Placed(rest, wait, usbd, Some(n), n + 1)
      requires Packed(data, [])
      modifies this`free, this`user, this`index, this`sequence, this`ntb, this`held
      ensures Valid() && user == Some(n) && held == old(held) + [[]] && NoneEmpty() == old(NoneEmpty())
      ensures ntb[n] == data && sequence == (old(sequence) + 1) % 0x1_0000
    {
      OpenContent(ntb, held, usbd.Some?, sent, accepted, data);
      free, user, index, sequence := rest, Some(n), 0, (sequence + 1) % 0x1_0000;
      ntb, held := ntb[n := data], held + [[]];
    }

    /** tx_accept_user_ntb */
    method AcceptUser() returns (ok: bool)
      requires Valid()
      modifies this`wait, this`free, this`user, this`index, this`sequence, this`ntb, this`held
      ensures Valid() && (!ok ==> held == old(held))
      ensures ok ==> user.Some? && |held| == |old(held)| + 1 && held[|held| - 1] == []
      ensures ok == (|old(held)| < NTB_N && (old(user).Some? ==> Push(old(wait), old(user).value).1))
      ensures old(NoneEmpty()) ==>
        (NoneEmpty() <==> !(old(user).Some? && old(index) == 0 && Push(old(wait), old(user).value).1))
      ensures !ok ==> user == if old(user).Some? && !Push(old(wait), old(user).value).1 then old(user) else None
    {
      if user.Some? {
        ok := Queue();
        if !ok { return; }
      }
      ok := Open();
    }

    /**
     net_can_tx: a yes to a datagram that fits an empty block is a promise.  A larger one is also answered yes when a
     block could be opened, and an untouched open block is then queued empty.
     */
    method CanTx(size: nat, busy: bool, ok: bool) returns (r: bool)
      requires Valid()
      modifies this
      ensures Valid() && accepted == old(accepted) && active == old(active)
      ensures r ==> user.Some? && held != [] && (Room(held[|held| - 1], size) <==> size <= MAX_SIZE)
      ensures r == (|| (old(user).Some? && Room(old(held)[|old(held)| - 1], size))
                    || (|old(held)| < NTB_N && (old(user).Some? ==> Push(old(wait), old(user).value).1)))
      ensures |old(held)| <= |held| <= |old(held)| + 1
      ensures !r && active && !busy && accepted != [] ==> usbd.Some?
      ensures old(NoneEmpty()) ==>
        (NoneEmpty() <==>
         !(MAX_SIZE < size && old(user).Some? && old(index) == 0 && Push(old(wait), old(user).value).1))
    {
      r := FitsUser(size);
      if r {
        FitsSmall(held[|held| - 1], size);
      } else {
        RoomInEmpty(size);
        r := Renew(busy, ok);
      }
    }

    /** net_can_tx when the datagram does not fit: a fresh block, or else a try to get one on its way. */
    method Renew(busy: bool, ok: bool) returns (r: bool)
      requires Valid()
      modifies this
      ensures Valid() && accepted == old(accepted) && active == old(active)
      ensures r ==> user.Some? && |held| == |old(held)| + 1 && held[|held| - 1] == []
      ensures !r ==> held == old(held)
      ensures r == (|old(held)| < NTB_N && (old(user).Some? ==> Push(old(wait), old(user).value).1))
      ensures !r && active && !busy && accepted != [] ==> usbd.Some?
      ensures old(NoneEmpty()) ==>
        (NoneEmpty() <==> !(old(user).Some? && old(index) == 0 && Push(old(wait), old(user).value).1))
    {
      r := AcceptUser();
      if !r {
        var started := TryStart(busy, ok);
      }
    }

    /**
     net_tx: without an open block the datagram is dropped, otherwise it is appended.  within tells whether it and its
     entry have room there; nothing is promised if not, since the code then writes over the end of the block or table.
     */
    method Tx(d: seq<byte>, busy: bool, ok: bool) returns (within: bool)
      requires Valid()
      modifies this
      ensures within <==> (old(user).Some? ==> old(held) != [] && Room(old(held)[|old(held)| - 1], |d|))
      ensures within ==>
        && Valid() && active == old(active) && accepted == old(accepted) + (if old(user).Some? then [d] else [])
        && (old(user).Some? && active && !busy ==> usbd.Some?)
        && (old(user) == None ==> ntb == old(ntb) && usbd == old(usbd) && wait == old(wait) && user == None)
        && (old(NoneEmpty()) ==> NoneEmpty())
    {
      if user == None { return true; }
      within := FitsUser(|d|);
      if within {
        Put(d);
        var started := TryStart(busy, ok);
      }
    }

    method Put(d: seq<byte>)
      requires Valid() && user.Some? && Room(held[|held| - 1], |d|)
      modifies this`ntb, this`index, this`held, this`accepted
      ensures Valid() && accepted == old(accepted) + [d] && (old(NoneEmpty()) ==> NoneEmpty())
    {
      var u := user.value;
      ghost var ds := held[u];
      assert Carries(ntb, held, u);
      var data := Append(ntb[u], index, d, ds);
      AppendContent(ntb, held, usbd.Some?, sent, accepted, u, data, d);
      ntb, index := ntb[u := data], index + 1;
      held, accepted := held[u := ds + [d]], accepted + [d];
    }

    /** net_usb_transfer on the data-in endpoint; zlp: tx_insert_zlp answers a full last packet with an empty one. */
    method Completed(bytes: nat, busy: bool, ok: bool) returns (zlp: bool)
      requires Valid()
      modifies this`usbd, this`wait, this`user, this`sent
      ensures Valid() && (old(NoneEmpty()) ==> NoneEmpty())
      ensures zlp <==> bytes != 0 && bytes % 512 == 0
      ensures old(usbd).Some? || zlp ==> usbd == old(usbd) && user == old(user) && wait == old(wait)
      ensures !zlp && active && !busy && accepted != [] ==> usbd.Some?
    {
      zlp := bytes != 0 && bytes % 512 == 0;
      if !zlp {
        var started := TryStart(busy, ok);
      }
    }

    /** The promise net_can_tx made still stands. */
    ghost predicate Promised(granted: Option<nat>)
      reads this
    {
      granted.Some? ==> user.Some? && held != [] && Room(held[|held| - 1], granted.value)
    }

    /**
     One call; net_tx is only called with a datagram of the size last granted, and USB only completes what was
     started.
     */
    method Handle(e: Event, granted: Option<nat>) returns (yes: bool)
      requires Valid() && NoneEmpty() && Promised(granted) && (e.Ask? ==> e.size <= MAX_SIZE)
      modifies this
      ensures Valid() && NoneEmpty() && Promised(Grant(granted, e, yes))
      ensures accepted == old(accepted) + Taken(granted, e)
    {
      yes := false;
      if e.Ask? {
        yes := CanTx(e.size, e.busy, true);
      } else if e.Give? && granted == Some(|e.d|) {
        var within := Tx(e.d, e.busy, true);
      } else if e.Done? && usbd.Some? {
        var zlp := Completed(e.bytes, e.busy, true);
      } else if e.SetActive? {
        active := e.on;
      }
    }

    /**
     Every run from a fresh interface: each datagram given after a yes is packed, in order and exactly once; no empty
     block is queued or started; but no more than one block is ever transferred and no more than 16 datagrams accepted.
     */
    method Run(events: seq<Event>) returns (yes: seq<bool>)
      requires Valid() && NoneEmpty() && accepted == []
      requires forall i :: 0 <= i < |events| && events[i].Ask? ==> 1 <= events[i].size <= MAX_SIZE
      modifies this
      ensures Valid() && NoneEmpty() && |yes| == |events| && accepted == AllTaken(events, yes, |events|)
      ensures |sent| <= 1 && |accepted| <= NTB_N * MAX_DATAGRAMS
      ensures (forall i :: 0 <= i < |accepted| ==> accepted[i] != [])
    {
      yes := [];
      var granted: Option<nat> := None;
      for i := 0 to |events|
        invariant Valid() && NoneEmpty() && Promised(granted)
        invariant |yes| == i && granted == Granted(events, yes, i) && accepted == AllTaken(events, yes, i)
      {
        var y := Handle(events[i], granted);
        GrantedStep(events, yes, y);
        granted, yes := Grant(granted, events[i], y), yes + [y];
      }
      AcceptedBound();
      TakenNonEmpty(events, yes, |events|);
    }

    lemma {:induction false} AcceptedBound()
      requires Valid()
      ensures |sent| <= 1 && |accepted| <= NTB_N * MAX_DATAGRAMS
    {
      forall u | 0 <= u < |held| ensures |held[u]| <= MAX_DATAGRAMS { BlockLength(ntb, held, u); }
      DatagramsBound(held);
    }

    /**
     What USB transfers, received into any buffer, is a block the receive walk reads as the first accepted datagrams.
     */
    lemma {:induction false} HostReceives(buffer: seq<byte>)
      requires Valid() && NoneEmpty() && usbd.Some? && (forall i :: 0 <= i < |accepted| ==> accepted[i] != [])
      requires |buffer| == NTB_SIZE && sent[0] <= buffer
      ensures held != [] && held[0] <= accepted && Standing(buffer, held[0], 0)
    {
      FirstBlockFirst(held);
      assert Carries(ntb, held, 0);
      WirePacked(ntb[0], buffer, held[0]);
      forall i | 0 <= i < |held[0]| ensures held[0][i] != [] { assert held[0][i] == accepted[i]; }
    }
  }
  /**
   Asked twice for one byte more than a block can hold, a fresh interface says yes twice and queues an empty block.
   */
  method QueuesEmpty(blocks: seq<seq<byte>>) returns (t: Transmitter, first: bool, second: bool)
    requires |blocks| == 2 && |blocks[0]| == |blocks[1]| == NTB_SIZE
    ensures fresh(t) && t.Valid() && first && second && t.accepted == [] && !t.NoneEmpty()
  {
    t := new Transmitter(blocks);
    first := t.CanTx(MAX_SIZE + 1, false, true);
    FirstBlockFirst(t.held);
    second := t.CanTx(MAX_SIZE + 1, false, true);
  }
}
