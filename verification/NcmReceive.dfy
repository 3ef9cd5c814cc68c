/** The receive side of lib/ncm: rx_update_user_ntb walking the datagram table of one block. */
module NcmReceive {
  import opened Bytes
  import opened Options
  import opened NcmBlock
  import opened NcmLists

  /** Number of accepting answers. */
  function Trues(answers: seq<bool>): nat {
    if answers == [] then 0 else Trues(answers[1..]) + if answers[0] then 1 else 0
  }

  /** Offset of table entry i: wNdpIndex plus the NDP16 header. */
  function EntryAt(data: seq<byte>, i: nat): nat
    requires 12 <= |data|
  {
    U16(data, 10) + 8 + 4 * i
  }

  /** The walk stands on datagram index of a readable block. */
  ghost predicate Standing(data: seq<byte>, ds: seq<seq<byte>>, index: nat) {
    Packed(data, ds) && index < |ds| && forall i :: 0 <= i < |ds| ==> ds[i] != []
  }

  /** Table entry i lies inside the block. */
  predicate EntryInside(data: seq<byte>, i: nat) {
    12 <= |data| && EntryAt(data, i) + 4 <= |data|
  }

  /** wDatagramIndex and wDatagramLength of entry i. */
  function IndexAt(data: seq<byte>, i: nat): nat
    requires EntryInside(data, i)
  {
    U16(data, EntryAt(data, i))
  }

  function LengthAt(data: seq<byte>, i: nat): nat
    requires EntryInside(data, i)
  {
    U16(data, EntryAt(data, i) + 2)
  }

  /** Table entry index and the bytes it points to lie inside the block. */
  predicate Readable(data: seq<byte>, index: nat) {
    EntryInside(data, index) && (LengthAt(data, index) == 0 || IndexAt(data, index) + LengthAt(data, index) <= |data|)
  }

  /** All that one call reads lies inside the block; the next entry is only looked at after an acceptance. */
  predicate Inside(data: seq<byte>, index: nat, accept: bool) {
    Readable(data, index) && (accept ==> EntryInside(data, index + 1))
  }

  /** What net_rx_cb is shown: the bytes the table entry points to. */
  function Shown(data: seq<byte>, index: nat): seq<byte>
    requires Readable(data, index)
  {
    var n := LengthAt(data, index);
    if n == 0 then [] else data[IndexAt(data, index)..IndexAt(data, index) + n]
  }

  /** Is there another datagram: neither half of the next entry is zero. */
  predicate More(data: seq<byte>, index: nat)
    requires EntryInside(data, index + 1)
  {
    IndexAt(data, index + 1) != 0 && LengthAt(data, index + 1) != 0
  }

  /** Byte k belongs to table entry i. */
  predicate InEntry(data: seq<byte>, i: nat, k: nat)
    requires 12 <= |data|
  {
    EntryAt(data, i) <= k < EntryAt(data, i) + 4
  }

  /** Byte k belongs to the datagram that table entry i points to. */
  predicate InDatagram(data: seq<byte>, i: nat, k: nat)
    requires EntryInside(data, i)
  {
    IndexAt(data, i) <= k < IndexAt(data, i) + LengthAt(data, i)
  }

  lemma {:induction false} EntryInsideIff(data: seq<byte>, i: nat)
    requires 12 <= |data|
    ensures EntryInside(data, i) <==> forall k: nat :: InEntry(data, i, k) ==> k < |data|
  {
    assert InEntry(data, i, EntryAt(data, i) + 3);
  }

  /** No read leaves the block if and only if every byte of the entry, its datagram and the next entry is in it. */
  lemma {:induction false} InsideIff(data: seq<byte>, index: nat, next: nat, accept: bool)
    requires 12 <= |data| && next == index + 1
    ensures Inside(data, index, accept) <==>
      && (forall k: nat :: InEntry(data, index, k) ==> k < |data|)
      && (EntryInside(data, index) ==> forall k: nat :: InDatagram(data, index, k) ==> k < |data|)
      && (accept ==> forall k: nat :: InEntry(data, next, k) ==> k < |data|)
  {
    EntryInsideIff(data, index);
    EntryInsideIff(data, next);
    if EntryInside(data, index) && LengthAt(data, index) != 0 {
      assert InDatagram(data, index, IndexAt(data, index) + LengthAt(data, index) - 1);
    }
  }

  /** Entry i of a block of the transmit side. */
  lemma {:induction false} PackedEntry(data: seq<byte>, ds: seq<seq<byte>>, i: nat)
    requires Packed(data, ds) && i <= |ds|
    ensures EntryInside(data, i)
    ensures if i == |ds| then IndexAt(data, i) == 0 && LengthAt(data, i) == 0
            else IndexAt(data, i) == Offset(ds, i) != 0 && LengthAt(data, i) == |ds[i]|
                 && Offset(ds, i) + |ds[i]| <= |data| && data[Offset(ds, i)..Offset(ds, i) + |ds[i]|] == ds[i]
  {
    if i < |ds| {
      assert EntryOk(data, ds, i);
      OffsetAligned(ds, i);
    } else {
      assert EntryZero(data, i);
    }
  }

  /** On a block of the transmit side the walk sees exactly the packed datagrams and where they end. */
  lemma {:induction false} WalkSees(data: seq<byte>, ds: seq<seq<byte>>, index: nat)
    requires Standing(data, ds, index)
    ensures Inside(data, index, true) && Shown(data, index) == ds[index]
    ensures More(data, index) <==> index + 1 < |ds|
  {
    PackedEntry(data, ds, index);
    PackedEntry(data, ds, index + 1);
    assert index + 1 < |ds| ==> ds[index + 1] != [];
  }

  /**
   The datagrams accepted when net_rx_cb gives these answers, each with whether the block was pushed back after it; up
   to the call whose reads leave the block, if one does.
   */
  function Deliveries(data: seq<byte>, index: nat, answers: seq<bool>): seq<(seq<byte>, bool)>
    decreases |answers|
  {
    if answers == [] || !Inside(data, index, answers[0]) then []
    else if !answers[0] then Deliveries(data, index, answers[1..])
    else
      var more := More(data, index);
      [(Shown(data, index), !more)] + Deliveries(data, if more then index + 1 else index, answers[1..])
  }

  /** One call: from answer i on. */
  lemma {:induction false} DeliveriesFirst(data: seq<byte>, index: nat, answers: seq<bool>, i: nat)
    requires i < |answers|
    ensures Deliveries(data, index, answers[i..]) ==
      if !Inside(data, index, answers[i]) then []
      else if !answers[i] then Deliveries(data, index, answers[i + 1..])
      else [(Shown(data, index), !More(data, index))]
           + Deliveries(data, if More(data, index) then index + 1 else index, answers[i + 1..])
  {
    assert answers[i..][1..] == answers[i + 1..] && answers[i..][0] == answers[i];
  }

  lemma {:induction false} Regrouped<T>(a: seq<T>, x: T, b: seq<T>)
    ensures a + ([x] + b) == (a + [x]) + b
  {
  }

  /**
   Round trip: whatever the answers, the k-th accepted delivery is the k-th packed datagram, and the block is pushed
   to the free list on the last one.  The pushed block stays in rx_user_ntb, so from then on every further
   acceptance delivers the last datagram again and pushes again.
   */
  lemma {:induction false} RoundTrip(data: seq<byte>, ds: seq<seq<byte>>, index: nat, answers: seq<bool>, k: nat)
    requires Standing(data, ds, index) && k < Trues(answers)
    ensures |Deliveries(data, index, answers)| == Trues(answers)
    ensures var j := if index + k < |ds| then index + k else |ds| - 1;
      Deliveries(data, index, answers)[k] == (ds[j], j == |ds| - 1)
    decreases |answers|
  {
    WalkSees(data, ds, index);
    DeliveredCount(data, ds, index, answers);
    if !answers[0] {
      RoundTrip(data, ds, index, answers[1..], k);
    } else {
      var next := if index + 1 < |ds| then index + 1 else index;
      assert Deliveries(data, index, answers)
        == [(ds[index], index + 1 == |ds|)] + Deliveries(data, next, answers[1..]);
      if 0 < k { RoundTrip(data, ds, next, answers[1..], k - 1); }
    }
  }

  lemma {:induction false} DeliveredCount(data: seq<byte>, ds: seq<seq<byte>>, index: nat, answers: seq<bool>)
    requires Standing(data, ds, index)
    ensures |Deliveries(data, index, answers)| == Trues(answers)
    decreases |answers|
  {
    WalkSees(data, ds, index);
    if answers != [] {
      DeliveredCount(data, ds, index, answers[1..]);
      if answers[0] { DeliveredCount(data, ds, if index + 1 < |ds| then index + 1 else index, answers[1..]); }
    }
  }

  /** The table of any block: entries i up to n are readable, and n is the first after i with a zero half. */
  ghost predicate TableTo(data: seq<byte>, i: nat, n: nat) {
    && i < n && EntryInside(data, n) && (IndexAt(data, n) == 0 || LengthAt(data, n) == 0)
    && (forall k :: i <= k < n ==> Readable(data, k))
    && (forall k :: i < k < n ==> Readable(data, k) && IndexAt(data, k) != 0 && LengthAt(data, k) != 0)
  }

  lemma {:induction false} TableStep(data: seq<byte>, i: nat, n: nat)
    requires TableTo(data, i, n)
    ensures Readable(data, i) && EntryInside(data, i + 1) && Inside(data, i, true) && (More(data, i) <==> i + 1 < n)
    ensures i + 1 < n ==> TableTo(data, i + 1, n)
  {
    assert Readable(data, i) && (i + 1 < n ==> Readable(data, i + 1));
  }

  lemma {:induction false} DeliveriesStep(data: seq<byte>, i: nat, n: nat, answers: seq<bool>)
    requires TableTo(data, i, n) && answers != [] && answers[0]
    ensures Readable(data, i)
    ensures var next := if i + 1 < n then i + 1 else i;
      Deliveries(data, i, answers) == [(Shown(data, i), i + 1 == n)] + Deliveries(data, next, answers[1..])
  {
    TableStep(data, i, n);
  }

  lemma {:induction false} AllDelivered(data: seq<byte>, i: nat, n: nat, answers: seq<bool>)
    requires TableTo(data, i, n) && forall m :: 0 <= m < |answers| ==> answers[m]
    ensures |Deliveries(data, i, answers)| == |answers|
    decreases |answers|
  {
    if answers != [] {
      TableStep(data, i, n);
      DeliveriesStep(data, i, n, answers);
      AllDelivered(data, if i + 1 < n then i + 1 else i, n, answers[1..]);
    }
  }

  /** The k-th delivery is entry j, the last one before the zero half or not. */
  ghost predicate Delivers(data: seq<byte>, n: nat, got: seq<(seq<byte>, bool)>, k: nat, j: nat) {
    k < |got| && Readable(data, j) && got[k] == (Shown(data, j), j + 1 == n)
  }

  lemma {:induction false} DeliversCons(data: seq<byte>, n: nat, x: (seq<byte>, bool), got: seq<(seq<byte>, bool)>,
                                        k: nat, j: nat)
    requires Delivers(data, n, got, k, j)
    ensures Delivers(data, n, [x] + got, k + 1, j)
  {
  }

  /**
   On any such block, packed or not, accepting delivers entry after entry, and from the last one before the zero half on
   that one again and again.
   */
  lemma {:induction false} WalkAny(data: seq<byte>, i: nat, n: nat, answers: seq<bool>, k: nat)
    requires TableTo(data, i, n) && k < |answers| && forall m :: 0 <= m < |answers| ==> answers[m]
    ensures |Deliveries(data, i, answers)| == |answers|
    ensures Delivers(data, n, Deliveries(data, i, answers), k, if i + k < n then i + k else n - 1)
    decreases |answers|
  {
    AllDelivered(data, i, n, answers);
    var next, rest, j := if i + 1 < n then i + 1 else i, answers[1..], if i + k < n then i + k else n - 1;
    assert Readable(data, i) && TableTo(data, next, n) by { TableStep(data, i, n); }
    DeliveriesStep(data, i, n, answers);
    if 0 < k {
      WalkAny(data, next, n, rest, k - 1);
      DeliversCons(data, n, (Shown(data, i), i + 1 == n), Deliveries(data, next, rest), k - 1, j);
    }
  }

  /**
   A block whose first entry lies beyond its end: rx_validate_datagram lets it through, and the walk reads outside.
   */
  lemma {:induction false} MalformedLeaves(data: seq<byte>, accept: bool)
    requires |data| == NTB_SIZE && NTB_SIZE - 12 < U16(data, 10)
    ensures !Inside(data, 0, accept)
  {
  }

  class Receiver {
    var ntb: seq<seq<byte>>
    var free: NtbList
    var wait: NtbList
    var user: Option<nat>
    var index: nat

    /** Any bytes may be in the blocks: rx_validate_datagram accepts everything. */
    ghost predicate Valid()
      reads this
    {
      && (forall u :: 0 <= u < |ntb| ==> |ntb[u]| == NTB_SIZE) && NcmLists.Valid(free) && NcmLists.Valid(wait)
      && (forall u :: u in Contents(wait) ==> u < |ntb|) && (user.Some? ==> user.value < |ntb|)
    }

    /** rx_update_user_ntb, first half: take the next waiting block if there is none in hand. */
    method Fetch()
      requires Valid()
      modifies this`user, this`index, this`wait
      ensures Valid()
      ensures if old(user).Some? then user == old(user) && index == old(index) && wait == old(wait)
              else (wait, user) == Pop(old(wait)) && index == 0
    {
      if user == None {
        ghost var before := Contents(wait);
        var r := Pop(wait);
        assert forall u :: u in Contents(r.0) ==> u in before;
        assert r.1.Some? ==> r.1.value in before;
        wait, user := r.0, r.1;
        index := 0;
      }
    }

    /**
     Second half: show the current datagram; accept is the answer of net_rx_cb.  When a read leaves the block, outside
     is set, and what is then read is not modelled.
     */
    method Offer(accept: bool) returns (shown: seq<byte>, pushed: bool, ok: bool, outside: bool)
      requires Valid() && user.Some?
      modifies this`index, this`free
      ensures Valid() && (outside <==> !Inside(ntb[user.value], old(index), accept))
      ensures outside ==> index == old(index) && free == old(free)
      ensures !outside ==>
        var data := ntb[user.value];
        && shown == Shown(data, old(index)) && pushed == (accept && !More(data, old(index)))
        && index == (if accept && !pushed then old(index) + 1 else old(index))
        && if pushed then (free, ok) == Push(old(free), user.value) else free == old(free) && ok
    {
      pushed, ok, shown := false, true, [];
      var data := ntb[user.value];
      outside := !Inside(data, index, accept);
      if outside {
        return;
      }
      shown := Shown(data, index);
      if accept {
        if More(data, index) {
          index := index + 1;
        } else {
          var r := Push(free, user.value);
          free, ok := r.0, r.1;
          pushed := true;
        }
      }
    }

    /** rx_update_user_ntb */
    method Update(accept: bool) returns (shown: Option<seq<byte>>, ok: bool, outside: bool)
      requires Valid()
      modifies this`user, this`index, this`wait, this`free
      ensures Valid()
      ensures if old(user).Some? then user == old(user) && wait == old(wait) else (wait, user) == Pop(old(wait))
      ensures user == None ==> shown == None && index == 0 && free == old(free) && ok && !outside
      ensures user.Some? ==>
        var at, data := if old(user).Some? then old(index) else 0, ntb[user.value];
        && (outside <==> !Inside(data, at, accept))
        && (outside ==> index == at && free == old(free))
        && (!outside ==>
            && shown == Some(Shown(data, at))
            && index == (if accept && More(data, at) then at + 1 else at)
            && if accept && !More(data, at) then (free, ok) == Push(old(free), user.value) else free == old(free) && ok)
    {
      shown, ok, outside := None, true, false;
      Fetch();
      if user.Some? {
        var d, pushed;
        d, pushed, ok, outside := Offer(accept);
        shown := Some(d);
      }
    }

    /** Any number of calls on the block in hand, until one reads outside it. */
    method Walk(answers: seq<bool>) returns (got: seq<(seq<byte>, bool)>)
      requires Valid() && user.Some?
      modifies this`index, this`free
      ensures Valid() && got == Deliveries(ntb[user.value], old(index), answers)
    {
      got := [];
      ghost var data := ntb[user.value];
      ghost var all := Deliveries(data, index, answers);
      assert answers[0..] == answers;
      for i := 0 to |answers|
        invariant Valid() && got + Deliveries(data, index, answers[i..]) == all
      {
        DeliveriesFirst(data, index, answers, i);
        var shown, pushed, ok, outside := Offer(answers[i]);
        if outside {
          return;
        }
        if answers[i] {
          Regrouped(got, (shown, pushed), Deliveries(data, index, answers[i + 1..]));
          got := got + [(shown, pushed)];
        }
      }
    }
  }
}
