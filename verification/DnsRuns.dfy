/** Whole runs of the resolver table: every interleaving of queries, timer ticks, replies and changes of servers. */
module DnsRuns {
  import opened Options
  import opened Sums
  import opened DnsTable

  // ----- dns_enqueue: which entry -----

  /** u8_t age of an entry. */
  function Age(seqno: nat, e: Entry): nat {
    (seqno - e.seqno) % 256
  }

  function FirstUnused(table: seq<Entry>, k: nat): nat
    requires k <= |table|
    decreases |table| - k
  {
    if k == |table| || table[k].state == Unused then k else FirstUnused(table, k + 1)
  }

  /** lseq and lseqi after the first k entries. */
  function Oldest(table: seq<Entry>, seqno: nat, k: nat): (nat, nat)
    requires k <= |table|
  {
    if k == 0 then (0, |table|)
    else
      var best := Oldest(table, seqno, k - 1);
      var age := Age(seqno, table[k - 1]);
      if table[k - 1].state == Done && best.0 < age then (age, k - 1) else best
  }

  /** The entry dns_enqueue uses, if any. */
  function Pick(table: seq<Entry>, seqno: nat): Option<nat> {
    var i := FirstUnused(table, 0);
    if i < |table| then Some(i)
    else
      var last := Oldest(table, seqno, |table|).1;
      if last < |table| && table[last].state == Done then Some(last) else None
  }

  lemma {:induction false} FirstUnusedIs(table: seq<Entry>, k: nat)
    requires k <= |table|
    ensures k <= FirstUnused(table, k) <= |table|
    ensures forall j :: k <= j < FirstUnused(table, k) ==> table[j].state != Unused
    ensures FirstUnused(table, k) < |table| ==> table[FirstUnused(table, k)].state == Unused
    decreases |table| - k
  {
    if k < |table| && table[k].state != Unused { FirstUnusedIs(table, k + 1); }
  }

  lemma {:induction false} OldestIs(table: seq<Entry>, seqno: nat, k: nat)
    requires k <= |table|
    ensures var (age, i) := Oldest(table, seqno, k);
      && (forall j :: 0 <= j < k && table[j].state == Done ==> Age(seqno, table[j]) <= age)
      && (0 < age ==> i < k && table[i].state == Done && Age(seqno, table[i]) == age)
      && (0 == age ==> i == |table|)
  {
    if 0 < k { OldestIs(table, seqno, k - 1); }
  }

  /** The entry has a query on its way, or was completed a multiple of 256 queries ago. */
  predicate Unavailable(seqno: nat, e: Entry) {
    e.state == New || e.state == Asking || (e.state == Done && Age(seqno, e) == 0)
  }

  /**
   The choice: the first unused entry, else a completed one of greatest age; never one with a query on its way.
   None if and only if every entry is unavailable.
   */
  lemma {:induction false} PickIs(table: seq<Entry>, seqno: nat)
    ensures Pick(table, seqno) == None <==>
      forall j :: 0 <= j < |table| ==> Unavailable(seqno, table[j])
    ensures var r := Pick(table, seqno); r.Some? ==>
      && r.value < |table| && (table[r.value].state == Unused || table[r.value].state == Done)
      && (forall j :: 0 <= j < |table| && (table[r.value].state == Done || j < r.value) ==> table[j].state != Unused)
      && (table[r.value].state == Done ==>
          forall j :: 0 <= j < |table| && table[j].state == Done ==> Age(seqno, table[j]) <= Age(seqno, table[r.value]))
  {
    FirstUnusedIs(table, 0);
    OldestIs(table, seqno, |table|);
  }

  // ----- the calls -----

  /** The entry and the request as dns_enqueue fills them; notify says whether the caller gave a callback. */
  function Filled(d: Dns, i: nat, notify: bool): Dns
    requires Sized(d) && i < |d.table|
  {
    WithEntry(d, i, d.table[i].(state := New, seqno := d.seqno)).(
      requests := d.requests[i := if notify then Some(d.next) else None],
      next := d.next + if notify then 1 else 0,
      seqno := (d.seqno + 1) % 256)
  }

  /** dns_enqueue; false stands for ERR_MEM. */
  function Enqueue(d: Dns, notify: bool): (Dns, bool)
    requires Good(d)
  {
    PickIs(d.table, d.seqno);
    var r := Pick(d.table, d.seqno);
    if r == None then (d, false) else (CheckEntry(Filled(d, r.value, notify), r.value), true)
  }

  /** The first entry whose query has this id. */
  function Match(table: seq<Entry>, txid: nat, k: nat): (r: nat)
    requires k <= |table|
    ensures k <= r <= |table| && (r < |table| ==> table[r].state == Asking && table[r].txid == txid)
    ensures forall j :: k <= j < r ==> !(table[j].state == Asking && table[j].txid == txid)
    decreases |table| - k
  {
    if k == |table| || (table[k].state == Asking && table[k].txid == txid) then k else Match(table, txid, k + 1)
  }

  /** dns_recv of a message from this address with this id. */
  function Receive(d: Dns, from: nat, txid: nat, reply: Reply): Dns
    requires Good(d)
  {
    var i := Match(d.table, txid, 0);
    if i == |d.table| then d
    else
      assert EntryOk(d, i);
      if d.servers[d.table[i].server] != from then d else Respond(d, i, reply)
  }

  /** dns_check_entries, after the first k entries. */
  function Ticked(d: Dns, k: nat): (r: Dns)
    requires Good(d) && k <= |d.table|
    ensures Good(r) && |r.table| == |d.table|
  {
    if k == 0 then d
    else
      var d1 := Ticked(d, k - 1);
      CheckGood(d1, k - 1);
      CheckEntry(d1, k - 1)
  }

  lemma {:induction false} CheckGood(d: Dns, k: nat)
    requires Good(d) && k < |d.table|
    ensures EntryOk(d, k) && Good(CheckEntry(d, k)) && |CheckEntry(d, k).table| == |d.table|
  {
    assert EntryOk(d, k);
    CheckLocal(d, k);
    LocalGood(d, CheckEntry(d, k), k, None);
  }

  /** dns_setserver */
  function SetServer(d: Dns, k: nat, addr: nat): Dns {
    if k < |d.servers| then d.(servers := d.servers[k := addr]) else d
  }

  datatype Event = Query(notify: bool) | Tick | Message(from: nat, txid: nat, reply: Reply) | Server(k: nat, addr: nat)

  function Step(d: Dns, e: Event): Dns
    requires Good(d)
  {
    match e
    case Query(notify) => Enqueue(d, notify).0
    case Tick => Ticked(d, |d.table|)
    case Message(from, txid, reply) => Receive(d, from, txid, reply)
    case Server(k, addr) => SetServer(d, k, addr)
  }

  // ----- the invariant -----

  function Is(id: nat): Option<nat> -> nat {
    (r: Option<nat>) => if r == Some(id) then 1 else 0
  }

  function Was(id: nat): Call -> nat {
    (c: Call) => if c.id == id then 1 else 0
  }

  /** How often callback id is waiting, and how often it was run. */
  function Waiting(d: Dns, id: nat): nat {
    Sum(d.requests, Is(id))
  }

  function Called(d: Dns, id: nat): nat {
    Sum(d.calls, Was(id))
  }

  /** Queries on their way have different ids. */
  predicate Distinct(table: seq<Entry>) {
    forall i, j :: 0 <= i < j < |table| && table[i].state == Asking && table[j].state == Asking ==>
      table[i].txid != table[j].txid
  }

  /** Every callback that was accepted is waiting or was run, exactly once in all. */
  ghost predicate Inv(d: Dns) {
    && Good(d) && Distinct(d.table)
    && forall id: nat :: Waiting(d, id) + Called(d, id) == if id < d.next then 1 else 0
  }

  lemma {:induction false} LocalGood(d: Dns, d': Dns, i: nat, addr: Option<nat>)
    requires Good(d) && i < |d.table| && Local(d, d', i, addr) && EntryOk(d', i)
    ensures Good(d')
  {
    forall j | 0 <= j < |d'.table| ensures EntryOk(d', j) {
      assert EntryOk(d, j);
    }
  }

  lemma {:induction false} LocalDistinct(d: Dns, d': Dns, i: nat, addr: Option<nat>)
    requires Sized(d) && i < |d.table| && Distinct(d.table) && Local(d, d', i, addr) && OwnTxid(d, d', i)
    ensures Distinct(d'.table)
  {
  }

  lemma {:induction false} LocalInv(d: Dns, d': Dns, i: nat, addr: Option<nat>)
    requires Inv(d) && i < |d.table| && Local(d, d', i, addr) && EntryOk(d', i) && OwnTxid(d, d', i)
    ensures Inv(d')
  {
    LocalGood(d, d', i, addr);
    LocalDistinct(d, d', i, addr);
    forall id: nat ensures Waiting(d', id) + Called(d', id) == if id < d'.next then 1 else 0 {
      assert Waiting(d, id) + Called(d, id) == if id < d.next then 1 else 0;
      SumUpdate(d.requests, Is(id), i, None);
      if d.requests[i].Some? { SumSnoc(d.calls, Was(id), Call(d.requests[i].value, addr)); }
    }
  }

  // ----- every call keeps the invariant -----

  lemma {:induction false} CheckInv(d: Dns, i: nat)
    requires Inv(d) && i < |d.table|
    ensures EntryOk(d, i) && Inv(CheckEntry(d, i)) && Local(d, CheckEntry(d, i), i, None)
  {
    assert EntryOk(d, i);
    CheckLocal(d, i);
    LocalInv(d, CheckEntry(d, i), i, None);
  }

  /** Filling an entry that waits for nothing loses no callback. */
  lemma {:induction false} FilledInv(d: Dns, i: nat, notify: bool)
    requires Inv(d) && i < |d.table| && (d.table[i].state == Unused || d.table[i].state == Done)
    ensures d.requests[i] == None && Inv(Filled(d, i, notify))
  {
    var d' := Filled(d, i, notify);
    assert EntryOk(d, i);
    forall j | 0 <= j < |d'.table| ensures EntryOk(d', j) { assert EntryOk(d, j); }
    forall id: nat ensures Waiting(d', id) + Called(d', id) == if id < d'.next then 1 else 0 {
      assert Waiting(d, id) + Called(d, id) == if id < d.next then 1 else 0;
      SumUpdate(d.requests, Is(id), i, if notify then Some(d.next) else None);
    }
  }

  // ----- a tick as a chain of states -----

  /** One entry after the other is checked. */
  predicate Link(d: Dns, d': Dns, k: nat) {
    && Sized(d) && Sized(d') && k < |d.table| == |d'.table|
    && Local(d, d', k, None) && EntryOk(d', k) && OwnTxid(d, d', k)
  }

  ghost predicate Chain(ds: seq<Dns>) {
    forall k, k1 :: 0 <= k < k1 < |ds| && k1 == k + 1 ==> Link(ds[k], ds[k1], k)
  }

  ghost function States(d: Dns): seq<Dns>
    requires Good(d)
  {
    seq(|d.table| + 1, k requires 0 <= k <= |d.table| => Ticked(d, k))
  }

  lemma {:induction false} TickedLink(d: Dns, k: nat)
    requires Good(d) && k < |d.table|
    ensures Link(Ticked(d, k), Ticked(d, k + 1), k)
  {
    var d1 := Ticked(d, k);
    assert EntryOk(d1, k);
    CheckLocal(d1, k);
  }

  lemma {:induction false} TickedChain(d: Dns)
    requires Good(d)
    ensures var ds := States(d); Chain(ds) && ds[0] == d && ds[|d.table|] == Ticked(d, |d.table|)
  {
    var ds := States(d);
    forall k, k1 | 0 <= k < k1 < |ds| && k1 == k + 1 ensures Link(ds[k], ds[k1], k) { TickedLink(d, k); }
  }

  lemma {:induction false} ChainInv(ds: seq<Dns>, k: nat)
    requires Chain(ds) && k < |ds| && Inv(ds[0])
    ensures Inv(ds[k])
  {
    if 0 < k {
      ChainInv(ds, k - 1);
      assert Link(ds[k - 1], ds[k], k - 1);
      LocalInv(ds[k - 1], ds[k], k - 1, None);
    }
  }

  lemma {:induction false} StepInv(d: Dns, e: Event)
    requires Inv(d)
    ensures Inv(Step(d, e))
  {
    match e
    case Query(notify) =>
      PickIs(d.table, d.seqno);
      var r := Pick(d.table, d.seqno);
      if r.Some? {
        FilledInv(d, r.value, notify);
        CheckInv(Filled(d, r.value, notify), r.value);
      }
    case Tick =>
      TickedChain(d);
      ChainInv(States(d), |d.table|);
    case Message(from, txid, reply) =>
      var i := Match(d.table, txid, 0);
      if i < |d.table| {
        assert EntryOk(d, i);
        RespondLocal(d, i, reply);
        LocalInv(d, Respond(d, i, reply), i, if reply.Address? then Some(reply.addr) else None);
      }
    case Server(k, addr) =>
      var d' := SetServer(d, k, addr);
      forall j | 0 <= j < |d'.table| ensures EntryOk(d', j) { assert EntryOk(d, j); }
      forall id: nat ensures Waiting(d', id) + Called(d', id) == if id < d'.next then 1 else 0 {
        assert Waiting(d, id) + Called(d, id) == if id < d.next then 1 else 0;
      }
  }

  // ----- how long a request can wait -----

  /** Timer ticks of the waits a, a + 1, ... before the last retry. */
  function Waits(a: nat, retries: nat): nat
    decreases retries - a
  {
    if a < retries then a + Waits(a + 1, retries) else 0
  }

  /** Ticks one server gets. */
  function PerServer(retries: nat): nat {
    1 + Waits(1, retries)
  }

  /** Ticks left until entry i times out, if all servers are set. */
  function Remaining(d: Dns, i: nat): int
    requires i < |d.table|
  {
    var e := d.table[i];
    match e.state
    case New => |d.servers| * PerServer(d.maxRetries) + 1
    case Asking => e.tmr + Waits(e.retries + 1, d.maxRetries) + (|d.servers| - 1 - e.server) * PerServer(d.maxRetries)
    case _ => 0
  }

  /** Request id in entry i is still waiting, with n ticks fewer to go, or its callback was run. */
  ghost predicate Advanced(d: Dns, d': Dns, i: nat, id: nat, n: int)
    requires i < |d.table| == |d'.table| && |d'.requests| == |d'.table|
  {
    Called(d', id) >= 1 || (d'.requests[i] == Some(id) && Remaining(d', i) + n <= Remaining(d, i))
  }

  /** dns_check_entry brings the timeout one tick nearer, also when it goes on to the next server. */
  lemma {:induction false} CheckAdvances(d: Dns, i: nat, id: nat)
    requires Sized(d) && i < |d.table| && EntryOk(d, i) && d.requests[i] == Some(id)
    ensures Local(d, CheckEntry(d, i), i, None) && Advanced(d, CheckEntry(d, i), i, id, 1)
  {
    CheckLocal(d, i);
    var d', p := CheckEntry(d, i), PerServer(d.maxRetries);
    if d'.requests[i] == Some(id) {
      var e := d.table[i];
      NextServer(|d.servers| - 1 - e.server, p);
      NextServer(|d.servers|, p);
    } else {
      SumSnoc(d.calls, Was(id), Call(id, None));
    }
  }

  lemma {:induction false} NextServer(k: int, p: nat)
    ensures k * p == (k - 1) * p + p
  {
  }

  /** d' has d's servers, retries and logged calls, and entry and request i of d. */
  predicate SameEntry(d: Dns, d': Dns, i: nat)
    requires Sized(d) && i < |d.table|
  {
    && Sized(d') && |d'.table| == |d.table| && d'.table[i] == d.table[i] && d'.requests[i] == d.requests[i]
    && d'.servers == d.servers && d'.maxRetries == d.maxRetries && d.calls <= d'.calls
  }

  lemma {:induction false} CalledMore(d: Dns, d': Dns, id: nat)
    requires d.calls <= d'.calls
    ensures Called(d, id) <= Called(d', id)
  {
    SumPrefix(d.calls, d'.calls, Was(id));
  }

  lemma {:induction false} OtherEntry(d: Dns, d': Dns, j: nat, addr: Option<nat>, i: nat)
    requires Sized(d) && j < |d.table| && i < |d.table| && j != i && Local(d, d', j, addr)
    ensures SameEntry(d, d', i)
  {
  }

  lemma {:induction false} SameThenAdvanced(d0: Dns, d: Dns, d': Dns, i: nat, id: nat, n: int)
    requires Sized(d0) && i < |d0.table| && SameEntry(d0, d, i) && |d'.table| == |d.table| == |d'.requests|
    requires Advanced(d, d', i, id, n)
    ensures Advanced(d0, d', i, id, n)
  {
  }

  lemma {:induction false} AdvancedThenSame(d0: Dns, d: Dns, d': Dns, i: nat, id: nat, n: int)
    requires Sized(d) && i < |d.table| == |d0.table| && Advanced(d0, d, i, id, n) && SameEntry(d, d', i)
    ensures Advanced(d0, d', i, id, n)
  {
    CalledMore(d, d', id);
  }

  lemma {:induction false} SameTrans(a: Dns, b: Dns, c: Dns, i: nat)
    requires Sized(a) && Sized(b) && i < |a.table| && i < |b.table| && SameEntry(a, b, i) && SameEntry(b, c, i)
    ensures SameEntry(a, c, i)
  {
  }

  /** The part of a tick that handles entries m up to k leaves entry i outside that range alone. */
  lemma {:induction false} ChainSpan(ds: seq<Dns>, m: nat, k: nat, i: nat)
    requires Chain(ds) && m <= k < |ds| && !(m <= i < k) && Sized(ds[m]) && i < |ds[m].table|
    ensures SameEntry(ds[m], ds[k], i)
  {
    if m < k {
      ChainSpan(ds, m, k - 1, i);
      assert Link(ds[k - 1], ds[k], k - 1);
      OtherEntry(ds[k - 1], ds[k], k - 1, None, i);
      SameTrans(ds[m], ds[k - 1], ds[k], i);
    }
  }

  lemma {:induction false} TickedTurn(d: Dns, i: nat, id: nat)
    requires Good(d) && i < |d.table| && Ticked(d, i).requests[i] == Some(id)
    ensures Advanced(Ticked(d, i), Ticked(d, i + 1), i, id, 1)
  {
    var d1 := Ticked(d, i);
    assert EntryOk(d1, i);
    CheckAdvances(d1, i, id);
  }

  lemma {:induction false} TickedAdvances(d: Dns, i: nat, id: nat)
    requires Good(d) && i < |d.table| && d.requests[i] == Some(id)
    ensures Advanced(d, Ticked(d, |d.table|), i, id, 1)
  {
    var ds, n := States(d), |d.table|;
    TickedChain(d);
    ChainSpan(ds, 0, i, i);
    assert ds[i] == Ticked(d, i) && ds[i + 1] == Ticked(d, i + 1);
    TickedTurn(d, i, id);
    SameThenAdvanced(d, ds[i], ds[i + 1], i, id, 1);
    ChainSpan(ds, i + 1, n, i);
    AdvancedThenSame(d, ds[i + 1], ds[n], i, id, 1);
  }

  lemma {:induction false} RespondAdvances(d: Dns, i: nat, id: nat, reply: Reply)
    requires Sized(d) && i < |d.table| && EntryOk(d, i) && d.table[i].state == Asking && d.requests[i] == Some(id)
    ensures var d' := Respond(d, i, reply);
      && Local(d, d', i, if reply.Address? then Some(reply.addr) else None) && Advanced(d, d', i, id, 0)
  {
    RespondLocal(d, i, reply);
    if reply.ErrorFlag? && Backup(d, d.table[i].server) {
      var d1 := WithEntry(d, i, d.table[i].(retries := d.maxRetries - 1, tmr := 1));
      CheckAdvances(d1, i, id);
    } else if !reply.Bad? {
      SumSnoc(d.calls, Was(id), Call(id, if reply.Address? then Some(reply.addr) else None));
    }
  }

  function Ticks(e: Event): nat {
    if e.Tick? then 1 else 0
  }

  /** No call sets a request back: each tick brings it nearer to its timeout, nothing else puts that off. */
  lemma {:induction false} StepAdvances(d: Dns, e: Event, i: nat, id: nat)
    requires Inv(d) && i < |d.table| && d.requests[i] == Some(id)
    ensures |Step(d, e).table| == |d.table| == |Step(d, e).requests| && Advanced(d, Step(d, e), i, id, Ticks(e))
  {
    match e
    case Query(notify) => QueryAdvances(d, notify, i);
    case Tick => TickedAdvances(d, i, id);
    case Message(from, txid, reply) => MessageAdvances(d, from, txid, reply, i, id);
    case Server(k, addr) =>
  }

  /** dns_enqueue overwrites no pending request: whatever waits goes on waiting, unchanged. */
  lemma {:induction false} QueryAdvances(d: Dns, notify: bool, i: nat)
    requires Inv(d) && i < |d.table| && d.requests[i].Some?
    ensures SameEntry(d, Enqueue(d, notify).0, i)
  {
    assert EntryOk(d, i);
    PickIs(d.table, d.seqno);
    var r := Pick(d.table, d.seqno);
    if r.Some? {
      var f := Filled(d, r.value, notify);
      FilledInv(d, r.value, notify);
      CheckInv(f, r.value);
      OtherEntry(f, CheckEntry(f, r.value), r.value, None, i);
    }
  }

  lemma {:induction false} MessageAdvances(d: Dns, from: nat, txid: nat, reply: Reply, i: nat, id: nat)
    requires Inv(d) && i < |d.table| && d.requests[i] == Some(id)
    ensures var d' := Receive(d, from, txid, reply);
      |d'.table| == |d.table| == |d'.requests| && Advanced(d, d', i, id, 0)
  {
    var j := Match(d.table, txid, 0);
    if j < |d.table| {
      assert EntryOk(d, j);
      if j == i {
        RespondAdvances(d, i, id, reply);
      } else {
        RespondLocal(d, j, reply);
        OtherEntry(d, Respond(d, j, reply), j, if reply.Address? then Some(reply.addr) else None, i);
      }
    }
  }

  // ----- whole runs -----

  function TickCount(events: seq<Event>): nat {
    if events == [] then 0 else Ticks(events[0]) + TickCount(events[1..])
  }

  /** The resolver after these events. */
  ghost function Run(d: Dns, events: seq<Event>): (r: Dns)
    requires Inv(d)
    ensures Inv(r) && |r.table| == |d.table| && d.calls <= r.calls && d.next <= r.next
    decreases |events|
  {
    if events == [] then d
    else
      StepInv(d, events[0]);
      StepCalls(d, events[0]);
      Run(Step(d, events[0]), events[1..])
  }

  /** The log of calls only grows; an address is passed on only from a message that has it. */
  lemma {:induction false} StepCalls(d: Dns, e: Event)
    requires Inv(d)
    ensures d.calls <= Step(d, e).calls && |Step(d, e).table| == |d.table| && d.next <= Step(d, e).next
    ensures !(e.Message? && e.reply.Address?) ==> NoneFound(Step(d, e).calls[|d.calls|..])
  {
    match e
    case Query(notify) =>
      PickIs(d.table, d.seqno);
      var r := Pick(d.table, d.seqno);
      if r.Some? {
        FilledInv(d, r.value, notify);
        CheckInv(Filled(d, r.value, notify), r.value);
      }
    case Tick =>
      TickedChain(d);
      ChainCalls(States(d), |d.table|);
    case Message(from, txid, reply) =>
      var i := Match(d.table, txid, 0);
      if i < |d.table| {
        assert EntryOk(d, i);
        RespondLocal(d, i, reply);
      }
    case Server(k, addr) =>
  }

  predicate NoneFound(calls: seq<Call>) {
    forall i :: 0 <= i < |calls| ==> calls[i].addr == None
  }

  lemma {:induction false} ChainCalls(ds: seq<Dns>, k: nat)
    requires Chain(ds) && k < |ds|
    ensures ds[0].calls <= ds[k].calls && ds[0].next <= ds[k].next && NoneFound(ds[k].calls[|ds[0].calls|..])
  {
    if 0 < k {
      ChainCalls(ds, k - 1);
      assert Link(ds[k - 1], ds[k], k - 1);
      NoneFoundAppend(ds[0].calls, ds[k - 1].calls, ds[k].calls);
    }
  }

  /** Whatever else happens, a waiting request is answered or has one tick less to go for every tick. */
  lemma {:induction false} RunAdvances(d: Dns, events: seq<Event>, i: nat, id: nat)
    requires Inv(d) && i < |d.table| && d.requests[i] == Some(id)
    ensures Advanced(d, Run(d, events), i, id, TickCount(events))
    decreases |events|
  {
    if events != [] {
      var d1 := Step(d, events[0]);
      StepInv(d, events[0]);
      StepAdvances(d, events[0], i, id);
      if Called(d1, id) >= 1 {
        CalledMore(d1, Run(d1, events[1..]), id);
      } else {
        RunAdvances(d1, events[1..], i, id);
      }
    }
  }

  lemma {:induction false} RemainingPositive(d: Dns, i: nat)
    requires Good(d) && i < |d.table| && d.requests[i].Some?
    ensures 1 <= Remaining(d, i)
  {
    assert EntryOk(d, i);
    NonNegative(|d.servers| - 1 - d.table[i].server, PerServer(d.maxRetries));
  }

  lemma {:induction false} NonNegative(k: int, p: nat)
    ensures 0 <= k ==> 0 <= k * p
  {
  }

  /** Just after dns_enqueue accepted it, a request is answered already or waits with all servers' ticks to go. */
  lemma {:induction false} Accepted(d: Dns)
    requires Inv(d) && Enqueue(d, true).1
    ensures var d' := Enqueue(d, true).0;
      && d'.next == d.next + 1
      && (|| Called(d', d.next) >= 1
          || exists i :: 0 <= i < |d'.requests| == |d'.table| && d'.requests[i] == Some(d.next)
                         && Remaining(d', i) <= |d.servers| * PerServer(d.maxRetries))
  {
    PickIs(d.table, d.seqno);
    var i := Pick(d.table, d.seqno).value;
    var f := Filled(d, i, true);
    FilledInv(d, i, true);
    CheckInv(f, i);
    CheckAdvances(f, i, d.next);
  }

  /**
   Every accepted request has its callback run exactly once, at the latest in the tick that uses up the ticks of all
   servers: 7 per server with 4 retries.
   */
  lemma {:induction false} Deadline(d: Dns, events: seq<Event>)
    requires Inv(d) && Enqueue(d, true).1 && |d.servers| * PerServer(d.maxRetries) <= TickCount(events)
    ensures var d' := Enqueue(d, true).0;
      Inv(d') && Called(Run(d', events), d.next) == 1 && Waiting(Run(d', events), d.next) == 0
  {
    StepInv(d, Query(true));
    var d' := Step(d, Query(true));
    Accepted(d);
    var r := Run(d', events);
    assert Waiting(r, d.next) + Called(r, d.next) == 1;
    if Called(d', d.next) >= 1 {
      CalledMore(d', r, d.next);
    } else {
      var i :| 0 <= i < |d'.requests| && d'.requests[i] == Some(d.next)
               && Remaining(d', i) <= |d.servers| * PerServer(d.maxRetries);
      RunAdvances(d', events, i, d.next);
      if r.requests[i] == Some(d.next) { RemainingPositive(r, i); }
    }
  }

  /** As long as no message carries an address, callbacks are run with NULL only. */
  lemma {:induction false} UnansweredNull(d: Dns, events: seq<Event>)
    requires Inv(d) && forall i :: 0 <= i < |events| ==> !(events[i].Message? && events[i].reply.Address?)
    ensures NoneFound(Run(d, events).calls[|d.calls|..])
    decreases |events|
  {
    if events != [] {
      var d1 := Step(d, events[0]);
      StepInv(d, events[0]);
      StepCalls(d, events[0]);
      UnansweredNull(d1, events[1..]);
      NoneFoundAppend(d.calls, d1.calls, Run(d1, events[1..]).calls);
    }
  }

  lemma {:induction false} NoneFoundAppend(a: seq<Call>, b: seq<Call>, c: seq<Call>)
    requires a <= b <= c && NoneFound(b[|a|..]) && NoneFound(c[|b|..])
    ensures NoneFound(c[|a|..])
  {
    forall i | 0 <= i < |c| - |a| ensures c[|a|..][i].addr == None {
      if |a| + i < |b| { assert b[|a|..][i] == c[|a|..][i]; } else { assert c[|b|..][|a| + i - |b|] == c[|a|..][i]; }
    }
  }

  /** An answer reaches the one request whose id and server it names, and no other. */
  lemma {:induction false} AnswerReaches(d: Dns, from: nat, txid: nat, addr: nat, ttl: nat, i: nat)
    requires Inv(d) && i < |d.table| && d.table[i].state == Asking && d.table[i].txid == txid
    ensures d.table[i].server < |d.servers|
    ensures var d' := Receive(d, from, txid, Address(addr, ttl));
      if d.servers[d.table[i].server] != from then d' == d
      else
        && d'.calls == d.calls + (if d.requests[i].Some? then [Call(d.requests[i].value, Some(addr))] else [])
        && d'.requests == d.requests[i := None] && d'.table == d.table[i := d'.table[i]]
        && d'.table[i].state == (if ttl == 0 then Unused else Done) && d'.table[i].addr == addr
        && d'.table[i].ttl == if ttl < MAX_TTL then ttl else MAX_TTL
  {
    assert EntryOk(d, i);
  }

  /**
   So does any other reply.  An error turns the request to the next server, if one is set; without one, and if there is
   no address, the request fails at once.  A reply that does not answer the query, or comes from elsewhere, changes
   nothing.
   */
  lemma {:induction false} ReplyReaches(d: Dns, from: nat, txid: nat, reply: Reply, i: nat)
    requires Inv(d) && i < |d.table| && d.table[i].state == Asking && d.table[i].txid == txid && !reply.Address?
    ensures d.table[i].server < |d.servers|
    ensures var d', e := Receive(d, from, txid, reply), d.table[i];
      if d.servers[e.server] != from || reply.Bad? then d' == d
      else if reply.ErrorFlag? && e.server + 1 < |d.servers| && d.servers[e.server + 1] != 0 then
        d' == d.(table := d.table[i := e.(server := e.server + 1, tmr := 1, retries := 0)])
      else
        d' == d.(table := d.table[i := e.(state := Unused)], requests := d.requests[i := None],
                 calls := d.calls + if d.requests[i].Some? then [Call(d.requests[i].value, None)] else [])
  {
    assert EntryOk(d, i);
  }

  /** A message whose id no query on its way has changes nothing. */
  lemma {:induction false} StrayReply(d: Dns, from: nat, txid: nat, reply: Reply)
    requires Inv(d) && forall i :: 0 <= i < |d.table| ==> !(d.table[i].state == Asking && d.table[i].txid == txid)
    ensures Receive(d, from, txid, reply) == d
  {
  }

  /** After dns_setserver only the new address answers for the server, and queries that ask it go on waiting. */
  lemma {:induction false} ServerAnswers(d: Dns, k: nat, addr: nat, from: nat, i: nat)
    requires Inv(d) && i < |d.table| && d.table[i].state == Asking && d.table[i].server == k && d.requests[i].Some?
    ensures var d1 := Step(d, Server(k, addr)); Inv(d1) && d1.requests == d.requests && d1.table == d.table
    ensures var d2 := Step(Step(d, Server(k, addr)), Message(from, d.table[i].txid, NoAddress));
      |d2.requests| == |d.requests| && d2.requests[i] == if from == addr then None else d.requests[i]
  {
    var d1 := Step(d, Server(k, addr));
    assert EntryOk(d, i);
    StepInv(d, Server(k, addr));
    ReplyReaches(d1, from, d.table[i].txid, NoAddress, i);
  }

  /** d' is d with the request of entry i failed. */
  predicate Failed(d: Dns, d': Dns, i: nat)
    requires i < |d.table| && |d'.table| == |d'.requests| == |d.table| == |d.requests|
  {
    && d'.table[i].state == Unused && d'.requests[i] == None
    && d'.calls == d.calls + if d.requests[i].Some? then [Call(d.requests[i].value, None)] else []
  }

  /** An accepted query goes to the first server, under an id of its own, or fails at once if that is not set. */
  lemma {:induction false} QueryAsks(d: Dns, notify: bool, i: nat)
    requires Inv(d) && Pick(d.table, d.seqno) == Some(i)
    ensures i < |d.table| && Enqueue(d, notify).1
    ensures var d' := Enqueue(d, notify).0;
      && |d'.table| == |d'.requests| == |d.table| && d'.next == d.next + (if notify then 1 else 0)
      && (forall j :: 0 <= j < |d.table| && j != i ==> d'.table[j] == d.table[j] && d'.requests[j] == d.requests[j])
      && if d.servers[0] == 0 then
           && d'.table[i].state == Unused && d'.requests[i] == None
           && d'.calls == d.calls + if notify then [Call(d.next, None)] else []
         else
           && d'.table[i].state == Asking && d'.table[i].server == 0 && d'.table[i].tmr == 1 && d'.table[i].retries == 0
           && !TxidUsed(d.table, d'.table[i].txid)
           && d'.requests[i] == (if notify then Some(d.next) else None) && d'.calls == d.calls
  {
    PickIs(d.table, d.seqno);
    var f := Filled(d, i, notify);
    FilledInv(d, i, notify);
    CheckInv(f, i);
    CreatedTxidUnused(f.table, f.txid);
    OtherIds(d, f, i, FreeTxid(f.table, f.txid, 1));
  }

  /** Filling an entry takes no id away. */
  lemma {:induction false} OtherIds(d: Dns, f: Dns, i: nat, id: nat)
    requires i < |d.table| && |f.table| == |d.table| && f.table == d.table[i := f.table[i]]
    requires d.table[i].state == Unused || d.table[i].state == Done
    requires !TxidUsed(f.table, id)
    ensures !TxidUsed(d.table, id)
  {
    forall j | 0 <= j < |d.table| && d.table[j].state == Asking ensures d.table[j].txid != id {
      assert f.table[j] == d.table[j];
    }
  }

  /** A query is sent again, or goes on to the next server, only if the server is set; otherwise it fails at once. */
  lemma {:induction false} ResendFailsIff(d: Dns, i: nat)
    requires Inv(d) && i < |d.table| && d.table[i].state == Asking && EntryOk(d, i)
    ensures var d', e := CheckEntry(d, i), d.table[i];
      var last := e.retries + 1 == d.maxRetries;
      var over := last && !(e.server + 1 < |d.servers| && d.servers[e.server + 1] != 0);
      && |d'.table| == |d'.requests| == |d.table|
      && if e.tmr == 1 && (over || (!last && d.servers[e.server] == 0)) then Failed(d, d', i)
         else d'.table[i].state == Asking && d'.requests == d.requests && d'.calls == d.calls
              && d'.table[i].server == e.server + (if e.tmr == 1 && last then 1 else 0)
  {
  }

  /** The empty table. */
  function Init(n: nat, servers: seq<nat>, maxRetries: nat): Dns {
    Dns(seq(n, _ => Entry(Unused, 0, 0, 0, 0, 0, 0, 0)), seq(n, _ => None), servers, 0, 0, maxRetries, 0, [])
  }

  lemma {:induction false} InitInv(n: nat, servers: seq<nat>, maxRetries: nat)
    requires n <= 255 && 1 <= |servers| <= 255 && 1 <= maxRetries <= 255
    ensures Inv(Init(n, servers, maxRetries))
  {
    var d := Init(n, servers, maxRetries);
    forall id: nat ensures Waiting(d, id) + Called(d, id) == 0 { SumZero(d.requests, Is(id)); }
  }

  // ----- the deadline is exact -----

  predicate AllSet(d: Dns) {
    forall k :: 0 <= k < |d.servers| ==> d.servers[k] != 0
  }

  lemma {:induction false} CheckExact(d: Dns, i: nat, id: nat)
    requires Sized(d) && i < |d.table| && EntryOk(d, i) && d.requests[i] == Some(id) && AllSet(d) && 1 < Remaining(d, i)
    ensures var d' := CheckEntry(d, i);
      |d'.requests| == |d.table| == |d'.table| && d'.requests[i] == Some(id) && Remaining(d', i) == Remaining(d, i) - 1
  {
    CheckLocal(d, i);
    var e, p := d.table[i], PerServer(d.maxRetries);
    NextServer(|d.servers| - 1 - e.server, p);
    NextServer(|d.servers|, p);
  }

  /** d' is d one tick later, with the request still waiting. */
  predicate OneTick(d: Dns, d': Dns, i: nat, id: nat)
    requires i < |d.table|
  {
    && |d'.requests| == |d.table| == |d'.table| && d'.requests[i] == Some(id) && Remaining(d', i) == Remaining(d, i) - 1
    && AllSet(d')
  }

  lemma {:induction false} TurnExact(d: Dns, i: nat, id: nat)
    requires Good(d) && i < |d.table|
    requires var d1 := Ticked(d, i); d1.requests[i] == Some(id) && AllSet(d1) && 1 < Remaining(d1, i)
    ensures OneTick(Ticked(d, i), Ticked(d, i + 1), i, id)
  {
    assert EntryOk(Ticked(d, i), i);
    CheckExact(Ticked(d, i), i, id);
    TickedLink(d, i);
  }

  lemma {:induction false} OneTickAround(a: Dns, b: Dns, c: Dns, d: Dns, i: nat, id: nat)
    requires Sized(a) && Sized(c) && i < |a.table| && SameEntry(a, b, i) && OneTick(b, c, i, id) && SameEntry(c, d, i)
    ensures OneTick(a, d, i, id)
  {
  }

  lemma {:induction false} ChainExact(ds: seq<Dns>, n: nat, i: nat, id: nat)
    requires Chain(ds) && |ds| == n + 1 && i < n && Sized(ds[0]) && |ds[0].table| == n
    requires i < |ds[i].table| && OneTick(ds[i], ds[i + 1], i, id)
    ensures OneTick(ds[0], ds[n], i, id)
  {
    ChainSpan(ds, 0, i, i);
    assert Link(ds[i], ds[i + 1], i);
    ChainSpan(ds, i + 1, n, i);
    OneTickAround(ds[0], ds[i], ds[i + 1], ds[n], i, id);
  }

  lemma {:induction false} TurnComes(d: Dns, i: nat, id: nat)
    requires Good(d) && i < |d.table| && d.requests[i] == Some(id) && AllSet(d) && 1 < Remaining(d, i)
    ensures OneTick(Ticked(d, i), Ticked(d, i + 1), i, id)
  {
    var ds := States(d);
    TickedChain(d);
    ChainSpan(ds, 0, i, i);
    assert SameEntry(d, Ticked(d, i), i);
    TurnExact(d, i, id);
  }

  lemma {:induction false} TickExact(d: Dns, i: nat, id: nat)
    requires Good(d) && i < |d.table| && d.requests[i] == Some(id) && AllSet(d) && 1 < Remaining(d, i)
    ensures OneTick(d, Step(d, Tick), i, id)
  {
    var ds := States(d);
    TickedChain(d);
    TurnComes(d, i, id);
    assert ds[i] == Ticked(d, i) && ds[i + 1] == Ticked(d, i + 1);
    ChainExact(ds, |d.table|, i, id);
  }

  /** With every server set and no reply, a request waits through all ticks but the last: the bound is met exactly. */
  lemma {:induction false} NotBefore(d: Dns, n: nat, i: nat, id: nat)
    requires Inv(d) && i < |d.table| && d.requests[i] == Some(id) && AllSet(d) && n < Remaining(d, i)
    ensures Run(d, seq(n, _ => Tick)).requests[i] == Some(id)
    decreases n
  {
    var ticks := seq(n, _ => Tick);
    if 0 < n {
      TickExact(d, i, id);
      StepInv(d, Tick);
      assert ticks[1..] == seq(n - 1, _ => Tick);
      NotBefore(Step(d, Tick), n - 1, i, id);
    }
  }
}
