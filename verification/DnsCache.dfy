/** Completed entries of the resolver table: how long an address is kept, and which one makes room for a new query. */
module DnsCache {
  import opened Options
  import opened DnsTable
  import opened DnsRuns

  // ----- time to live -----

  /** No query of the run uses entry i. */
  ghost predicate Kept(d: Dns, events: seq<Event>, i: nat)
    requires Inv(d)
    decreases |events|
  {
    events == [] ||
    (&& (events[0].Query? ==> Pick(d.table, d.seqno) != Some(i))
     && (StepInv(d, events[0]); Kept(Step(d, events[0]), events[1..], i)))
  }

  /** The entry k ticks later: its time to live counts down, and with the last tick it is flushed. */
  predicate Aged(e: Entry, e': Entry, k: nat) {
    if k == 0 then e' == e else if k < e.ttl then e' == e.(ttl := e.ttl - k) else e'.state == Unused
  }

  lemma {:induction false} CheckAges(d: Dns, i: nat)
    requires Sized(d) && i < |d.table| && EntryOk(d, i) && (d.table[i].state == Done || d.table[i].state == Unused)
    ensures |CheckEntry(d, i).table| == |d.table|
    ensures if d.table[i].state == Done then Aged(d.table[i], CheckEntry(d, i).table[i], 1)
            else CheckEntry(d, i).table[i].state == Unused
  {
  }

  lemma {:induction false} TickAges(d: Dns, i: nat)
    requires Inv(d) && i < |d.table| && (d.table[i].state == Done || d.table[i].state == Unused)
    ensures |Step(d, Tick).table| == |d.table|
    ensures if d.table[i].state == Done then Aged(d.table[i], Step(d, Tick).table[i], 1)
            else Step(d, Tick).table[i].state == Unused
  {
    var ds, n := States(d), |d.table|;
    TickedChain(d);
    ChainSpan(ds, 0, i, i);
    assert ds[i] == Ticked(d, i) && ds[i + 1] == Ticked(d, i + 1) && EntryOk(ds[i], i);
    CheckAges(ds[i], i);
    ChainSpan(ds, i + 1, n, i);
  }

  lemma {:induction false} OthersKeep(d: Dns, e: Event, i: nat)
    requires Inv(d) && i < |d.table| && (d.table[i].state == Done || d.table[i].state == Unused) && !e.Tick?
    requires e.Query? ==> Pick(d.table, d.seqno) != Some(i)
    ensures |Step(d, e).table| == |d.table| && Step(d, e).table[i] == d.table[i]
  {
    match e
    case Query(notify) =>
      PickIs(d.table, d.seqno);
      var r := Pick(d.table, d.seqno);
      if r.Some? {
        FilledInv(d, r.value, notify);
        CheckInv(Filled(d, r.value, notify), r.value);
      }
    case Message(from, txid, reply) =>
      var j := Match(d.table, txid, 0);
      if j < |d.table| {
        assert EntryOk(d, j);
        RespondLocal(d, j, reply);
      }
    case Server(k, addr) =>
  }

  lemma {:induction false} StaysUnused(d: Dns, events: seq<Event>, i: nat)
    requires Inv(d) && i < |d.table| && d.table[i].state == Unused && Kept(d, events, i)
    ensures Run(d, events).table[i].state == Unused
    decreases |events|
  {
    if events != [] {
      StepInv(d, events[0]);
      if events[0].Tick? { TickAges(d, i); } else { OthersKeep(d, events[0], i); }
      StaysUnused(Step(d, events[0]), events[1..], i);
    }
  }

  lemma {:induction false} AgedMore(e: Entry, e1: Entry, e2: Entry, k: nat)
    requires 1 < e.ttl && e1 == e.(ttl := e.ttl - 1) && Aged(e1, e2, k)
    ensures Aged(e, e2, k + 1)
  {
  }

  /**
   Whatever else happens, an address with a time to live of n stays for n ticks, one less for each, and is gone with the
   n-th, unless a new query takes the entry.
   */
  lemma {:induction false} CacheExpires(d: Dns, events: seq<Event>, i: nat)
    requires Inv(d) && i < |d.table| && d.table[i].state == Done && Kept(d, events, i)
    ensures Aged(d.table[i], Run(d, events).table[i], TickCount(events))
    decreases |events|
  {
    if events != [] {
      var d1, e := Step(d, events[0]), d.table[i];
      StepInv(d, events[0]);
      if !events[0].Tick? {
        OthersKeep(d, events[0], i);
        CacheExpires(d1, events[1..], i);
      } else {
        TickAges(d, i);
        if e.ttl <= 1 {
          StaysUnused(d1, events[1..], i);
        } else {
          CacheExpires(d1, events[1..], i);
          AgedMore(e, d1.table[i], Run(d, events).table[i], TickCount(events[1..]));
        }
      }
    }
  }

  // ----- who makes room -----

  /** Which query filled each entry last, counting accepted queries from 0, and how many were accepted. */
  datatype History = History(filledBy: seq<nat>, count: nat)

  function Noted(d: Dns, h: History, e: Event): History
    requires |h.filledBy| == |d.table|
  {
    var r := Pick(d.table, d.seqno);
    if e.Query? && r.Some? && r.value < |d.table| then History(h.filledBy[r.value := h.count], h.count + 1) else h
  }

  /** The resolver and the history after these events. */
  ghost function Followed(d: Dns, h: History, events: seq<Event>): (r: (Dns, History))
    requires Inv(d) && |h.filledBy| == |d.table|
    ensures r.0 == Run(d, events) && |r.1.filledBy| == |d.table|
    decreases |events|
  {
    if events == [] then (d, h)
    else
      StepInv(d, events[0]);
      StepCalls(d, events[0]);
      Followed(Step(d, events[0]), Noted(d, h, events[0]), events[1..])
  }

  /** Sequence numbers are those of the queries, modulo 256. */
  ghost predicate InHistory(d: Dns, h: History) {
    && |h.filledBy| == |d.table| && d.seqno == h.count % 256
    && (forall i :: 0 <= i < |d.table| && d.table[i].state != Unused ==>
          h.filledBy[i] < h.count && d.table[i].seqno == h.filledBy[i] % 256)
  }

  /** No entry of d was filled on the way to d'. */
  predicate NoneFilled(d: Dns, d': Dns) {
    && |d'.table| == |d.table| && d'.seqno == d.seqno
    && forall i :: 0 <= i < |d.table| ==>
         d'.table[i].seqno == d.table[i].seqno && (d.table[i].state == Unused ==> d'.table[i].state == Unused)
  }

  lemma {:induction false} CheckFills(d: Dns, i: nat)
    requires Sized(d) && i < |d.table| && EntryOk(d, i)
    ensures NoneFilled(d, CheckEntry(d, i))
  {
    CheckLocal(d, i);
  }

  lemma {:induction false} TickedFills(d: Dns, k: nat)
    requires Good(d) && k <= |d.table|
    ensures NoneFilled(d, Ticked(d, k))
  {
    if 0 < k {
      TickedFills(d, k - 1);
      NextFills(d, k - 1);
      NoneFilledTwice(d, Ticked(d, k - 1), Ticked(d, k));
    }
  }

  lemma {:induction false} NextFills(d: Dns, k: nat)
    requires Good(d) && k < |d.table|
    ensures NoneFilled(Ticked(d, k), Ticked(d, k + 1))
  {
    assert EntryOk(Ticked(d, k), k);
    CheckFills(Ticked(d, k), k);
  }

  lemma {:induction false} NoneFilledTwice(d: Dns, d1: Dns, d2: Dns)
    requires NoneFilled(d, d1) && NoneFilled(d1, d2)
    ensures NoneFilled(d, d2)
  {
  }

  lemma {:induction false} OtherEventsFill(d: Dns, e: Event)
    requires Inv(d) && !e.Query?
    ensures NoneFilled(d, Step(d, e))
  {
    match e
    case Tick => TickedFills(d, |d.table|);
    case Message(from, txid, reply) =>
      var i := Match(d.table, txid, 0);
      if i < |d.table| {
        assert EntryOk(d, i);
        RespondLocal(d, i, reply);
      }
    case Server(k, addr) =>
  }

  lemma {:induction false} QueryFills(d: Dns, h: History, notify: bool)
    requires Inv(d) && InHistory(d, h)
    ensures InHistory(Step(d, Query(notify)), Noted(d, h, Query(notify)))
  {
    PickIs(d.table, d.seqno);
    var r := Pick(d.table, d.seqno);
    if r.Some? {
      var f := Filled(d, r.value, notify);
      FilledInv(d, r.value, notify);
      CheckInv(f, r.value);
      CheckFills(f, r.value);
      FilledHistory(d, h, r.value, notify);
      SameHistory(f, CheckEntry(f, r.value), Noted(d, h, Query(notify)));
    }
  }

  lemma {:induction false} FilledHistory(d: Dns, h: History, i: nat, notify: bool)
    requires Sized(d) && i < |d.table| && InHistory(d, h)
    ensures InHistory(Filled(d, i, notify), History(h.filledBy[i := h.count], h.count + 1))
  {
    assert (h.count % 256 + 1) % 256 == (h.count + 1) % 256;
  }

  lemma {:induction false} SameHistory(d: Dns, d': Dns, h: History)
    requires InHistory(d, h) && NoneFilled(d, d')
    ensures InHistory(d', h)
  {
  }

  lemma {:induction false} StepHistory(d: Dns, h: History, e: Event)
    requires Inv(d) && InHistory(d, h)
    ensures InHistory(Step(d, e), Noted(d, h, e))
  {
    if e.Query? {
      QueryFills(d, h, e.notify);
    } else {
      OtherEventsFill(d, e);
      SameHistory(d, Step(d, e), h);
    }
  }

  lemma {:induction false} RunHistory(d: Dns, h: History, events: seq<Event>)
    requires Inv(d) && InHistory(d, h)
    ensures var (d', h') := Followed(d, h, events); InHistory(d', h')
    decreases |events|
  {
    if events != [] {
      StepInv(d, events[0]);
      StepHistory(d, h, events[0]);
      RunHistory(Step(d, events[0]), Noted(d, h, events[0]), events[1..]);
    }
  }

  lemma {:induction false} AgeIs(d: Dns, h: History, j: nat)
    requires InHistory(d, h) && j < |d.table| && d.table[j].state != Unused && h.count <= h.filledBy[j] + 255
    ensures Age(d.seqno, d.table[j]) == h.count - h.filledBy[j]
  {
    assert h.filledBy[j] < h.count && d.table[j].seqno == h.filledBy[j] % 256;
    AgeOf(h.count, h.filledBy[j]);
  }

  lemma {:induction false} AgeOf(n: nat, m: nat)
    requires m < n <= m + 255
    ensures (n % 256 - m % 256) % 256 == n - m
  {
  }

  lemma {:induction false} PicksOldest(d: Dns, h: History, r: nat, j: nat)
    requires InHistory(d, h) && Pick(d.table, d.seqno) == Some(r) && r < |d.table| && d.table[r].state == Done
    requires j < |d.table| && d.table[j].state == Done && h.count <= h.filledBy[j] + 255
    requires h.count <= h.filledBy[r] + 255
    ensures h.filledBy[r] <= h.filledBy[j]
  {
    PickIs(d.table, d.seqno);
    AgeIs(d, h, r);
    AgeIs(d, h, j);
  }

  /**
   After any run from the empty table: a query that takes a completed entry takes the one filled by the earliest query,
   as long as no completed entry was filled more than 255 queries ago.
   */
  lemma {:induction false} EvictsOldest(n: nat, servers: seq<nat>, maxRetries: nat, events: seq<Event>, r: nat, j: nat)
    requires n <= 255 && 1 <= |servers| <= 255 && 1 <= maxRetries <= 255
    ensures Inv(Init(n, servers, maxRetries))
    ensures var (d, h) := Followed(Init(n, servers, maxRetries), History(seq(n, _ => 0), 0), events);
      Pick(d.table, d.seqno) == Some(r) && r < |d.table| && d.table[r].state == Done
      && j < |d.table| && d.table[j].state == Done && h.count <= h.filledBy[j] + 255 && h.count <= h.filledBy[r] + 255
      ==> h.filledBy[r] <= h.filledBy[j]
  {
    InitInv(n, servers, maxRetries);
    var d0, h0 := Init(n, servers, maxRetries), History(seq(n, _ => 0), 0);
    RunHistory(d0, h0, events);
    var (d, h) := Followed(d0, h0, events);
    if Pick(d.table, d.seqno) == Some(r) && r < |d.table| && d.table[r].state == Done
      && j < |d.table| && d.table[j].state == Done && h.count <= h.filledBy[j] + 255 && h.count <= h.filledBy[r] + 255 {
      PicksOldest(d, h, r, j);
    }
  }
}
