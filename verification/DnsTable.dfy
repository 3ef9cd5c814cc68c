/**
 The resolver table of lib/lwip/src/core/dns.c, one request per entry, as a state machine over the calls that change it.
 Servers are addresses, 0 being "not set"; a request is the number of its callback.
 */
module DnsTable {
  import opened Options

  datatype EntryState = Unused | New | Asking | Done

  /** struct dns_table_entry without the name. */
  datatype Entry = Entry(state: EntryState, txid: nat, server: nat, tmr: nat, retries: nat, seqno: nat, ttl: nat,
                         addr: nat)

  /** One run of a callback; None stands for NULL. */
  datatype Call = Call(id: nat, addr: Option<nat>)

  /** maxRetries is DNS_MAX_RETRIES; next numbers the callbacks; calls logs those that were run. */
  datatype Dns = Dns(table: seq<Entry>, requests: seq<Option<nat>>, servers: seq<nat>, seqno: nat, txid: nat,
                     maxRetries: nat, next: nat, calls: seq<Call>)

  const TXIDS := 0x1_0000
  const MAX_TTL := 604800

  predicate Sized(d: Dns) {
    |d.requests| == |d.table| <= 255 && 1 <= |d.servers| <= 255 && 1 <= d.maxRetries <= 255
  }

  // ----- dns_create_txid -----

  predicate TxidUsed(table: seq<Entry>, id: nat) {
    exists i :: 0 <= i < |table| && table[i].state == Asking && table[i].txid == id
  }

  /** Is the k-th id after txid taken? */
  predicate Taken(table: seq<Entry>, txid: nat, k: nat) {
    TxidUsed(table, (txid + k) % TXIDS)
  }

  /** The first of txid + k, txid + k + 1, ... that no pending query uses. */
  function FreeTxid(table: seq<Entry>, txid: nat, k: nat): nat
    decreases TXIDS - k
  {
    if TXIDS <= k || !Taken(table, txid, k) then (txid + k) % TXIDS else FreeTxid(table, txid, k + 1)
  }

  ghost function Ids(table: seq<Entry>): set<nat> {
    if table == [] then {} else Ids(table[..|table| - 1]) + {table[|table| - 1].txid}
  }

  lemma {:induction false} IdsCount(table: seq<Entry>)
    ensures |Ids(table)| <= |table|
  {
    if table != [] { IdsCount(table[..|table| - 1]); }
  }

  lemma {:induction false} IdsMember(table: seq<Entry>, i: nat)
    requires i < |table|
    ensures table[i].txid in Ids(table)
  {
    if i < |table| - 1 { IdsMember(table[..|table| - 1], i); }
  }

  /** k ids in a row. */
  ghost function Window(txid: nat, k: nat): set<nat> {
    if k == 0 then {} else Window(txid, k - 1) + {(txid + k) % TXIDS}
  }

  lemma {:induction false} WindowMisses(txid: nat, j: nat, k: nat)
    requires j < k <= TXIDS
    ensures (txid + k) % TXIDS !in Window(txid, j)
  {
    if 0 < j {
      WindowMisses(txid, j - 1, k);
      assert (txid + k) % TXIDS != (txid + j) % TXIDS;
    }
  }

  lemma {:induction false} WindowCount(txid: nat, k: nat)
    requires k <= TXIDS
    ensures |Window(txid, k)| == k
  {
    if 0 < k {
      WindowMisses(txid, k - 1, k);
      WindowCount(txid, k - 1);
    }
  }

  lemma {:induction false} SubsetCount(a: set<nat>, b: set<nat>)
    requires a <= b
    ensures |a| <= |b|
  {
    if a != {} {
      var x :| x in a;
      SubsetCount(a - {x}, b - {x});
    }
  }

  lemma {:induction false} WindowUsed(table: seq<Entry>, txid: nat, k: nat)
    requires forall j :: 1 <= j <= k ==> Taken(table, txid, j)
    ensures Window(txid, k) <= Ids(table)
  {
    if 0 < k {
      WindowUsed(table, txid, k - 1);
      assert Taken(table, txid, k);
      var i :| 0 <= i < |table| && table[i].state == Asking && table[i].txid == (txid + k) % TXIDS;
      IdsMember(table, i);
    }
  }

  /** Pigeonhole: not all of the next |table| + 1 ids are taken, so the search ends. */
  lemma {:induction false} TxidExists(table: seq<Entry>, txid: nat)
    requires |table| < TXIDS
    ensures exists k :: 1 <= k <= |table| + 1 && !Taken(table, txid, k)
  {
    var n := |table| + 1;
    if forall k :: 1 <= k <= n ==> Taken(table, txid, k) {
      WindowUsed(table, txid, n);
      WindowCount(txid, n);
      SubsetCount(Window(txid, n), Ids(table));
      IdsCount(table);
      assert false;
    }
  }

  /** dns_create_txid gives an id that no pending query uses. */
  lemma {:induction false} FreeTxidFree(table: seq<Entry>, txid: nat, k: nat, m: nat)
    requires 1 <= k <= m < TXIDS && !Taken(table, txid, m)
    ensures !TxidUsed(table, FreeTxid(table, txid, k)) && FreeTxid(table, txid, k) < TXIDS
    decreases m - k
  {
    if Taken(table, txid, k) { FreeTxidFree(table, txid, k + 1, m); }
  }

  /** One round of the search. */
  lemma {:induction false} TxidRound(table: seq<Entry>, txid: nat, start: nat, k: nat)
    requires 1 <= k < TXIDS && txid % TXIDS == (start + k - 1) % TXIDS
    ensures var id := (txid + 1) % TXIDS;
      && TxidUsed(table, id) == Taken(table, start, k)
      && FreeTxid(table, start, k) == if TxidUsed(table, id) then FreeTxid(table, start, k + 1) else id
    ensures (txid + 1) % TXIDS % TXIDS == (start + k + 1 - 1) % TXIDS
  {
    assert (txid + 1) % TXIDS == (start + k) % TXIDS;
  }

  lemma {:induction false} CreatedTxidUnused(table: seq<Entry>, txid: nat)
    requires |table| <= 255
    ensures !TxidUsed(table, FreeTxid(table, txid, 1)) && FreeTxid(table, txid, 1) < TXIDS
  {
    TxidExists(table, txid);
    var m :| 1 <= m <= |table| + 1 && !Taken(table, txid, m);
    FreeTxidFree(table, txid, 1, m);
  }

  // ----- one entry -----

  /**
   What holds of entry i between calls: a query on its way can still time out, and only such an entry has a request.
   */
  predicate EntryOk(d: Dns, i: nat)
    requires Sized(d) && i < |d.table|
  {
    var e := d.table[i];
    && (e.state == Asking ==> e.server < |d.servers| && 1 <= e.tmr && e.retries < d.maxRetries)
    && (d.requests[i].Some? ==> e.state == New || e.state == Asking)
  }

  predicate Good(d: Dns) {
    Sized(d) && forall i :: 0 <= i < |d.table| ==> EntryOk(d, i)
  }

  function WithEntry(d: Dns, i: nat, e: Entry): Dns
    requires i < |d.table|
  {
    d.(table := d.table[i := e])
  }

  /** dns_call_found */
  function CallFound(d: Dns, i: nat, addr: Option<nat>): Dns
    requires i < |d.requests|
  {
    d.(requests := d.requests[i := None],
       calls := if d.requests[i].Some? then d.calls + [Call(d.requests[i].value, addr)] else d.calls)
  }

  /** The request fails and the entry is flushed. */
  function Fail(d: Dns, i: nat): Dns
    requires Sized(d) && i < |d.table|
  {
    WithEntry(CallFound(d, i, None), i, d.table[i].(state := Unused))
  }

  /** dns_send: no server, no query. */
  function Send(d: Dns, i: nat): Dns
    requires Sized(d) && i < |d.table| && d.table[i].server < |d.servers|
  {
    if d.servers[d.table[i].server] == 0 then Fail(d, i) else d
  }

  /** dns_backupserver_available */
  predicate Backup(d: Dns, server: nat) {
    server + 1 < |d.servers| && d.servers[server + 1] != 0
  }

  /** dns_check_entry */
  function CheckEntry(d: Dns, i: nat): Dns
    requires Sized(d) && i < |d.table| && EntryOk(d, i)
  {
    var e := d.table[i];
    match e.state
    case New =>
      var id := FreeTxid(d.table, d.txid, 1);
      Send(WithEntry(d, i, e.(txid := id, state := Asking, server := 0, tmr := 1, retries := 0)).(txid := id), i)
    case Asking =>
      if e.tmr != 1 then WithEntry(d, i, e.(tmr := e.tmr - 1))
      else if e.retries + 1 != d.maxRetries then
        Send(WithEntry(d, i, e.(tmr := e.retries + 1, retries := e.retries + 1)), i)
      else if Backup(d, e.server) then
        Send(WithEntry(d, i, e.(server := e.server + 1, tmr := 1, retries := 0)), i)
      else
        Fail(WithEntry(d, i, e.(tmr := 0, retries := e.retries + 1)), i)
    case Done =>
      if e.ttl <= 1 then WithEntry(d, i, e.(ttl := 0, state := Unused)) else WithEntry(d, i, e.(ttl := e.ttl - 1))
    case Unused => d
  }

  /**
   What dns_recv makes of a message whose id matches: not an answer to the query, an error, no address, or an
   address.
   */
  datatype Reply = Bad | ErrorFlag | NoAddress | Address(addr: nat, ttl: nat)

  /** The tail of dns_recv, and dns_correct_response. */
  function Respond(d: Dns, i: nat, reply: Reply): Dns
    requires Sized(d) && i < |d.table| && EntryOk(d, i) && d.table[i].state == Asking
  {
    var e := d.table[i];
    match reply
    case Bad => d
    case ErrorFlag =>
      if Backup(d, e.server) then CheckEntry(WithEntry(d, i, e.(retries := d.maxRetries - 1, tmr := 1)), i)
      else Fail(d, i)
    case NoAddress => Fail(d, i)
    case Address(addr, ttl) =>
      var kept := if ttl > MAX_TTL then MAX_TTL else ttl;
      var state := if kept == 0 then Unused else Done;
      CallFound(WithEntry(d, i, e.(addr := addr, ttl := kept, state := state)), i, Some(addr))
  }

  // ----- a call touches one entry -----

  /** d' differs from d in entry i only; its request is as before, or its callback was run with addr. */
  predicate Local(d: Dns, d': Dns, i: nat, addr: Option<nat>)
    requires Sized(d) && i < |d.table|
  {
    && |d'.table| == |d.table| && d'.table == d.table[i := d'.table[i]]
    && d'.servers == d.servers && d'.maxRetries == d.maxRetries && d'.next == d.next && d'.seqno == d.seqno
    && (|| (d'.requests == d.requests && d'.calls == d.calls)
        || (d'.requests == CallFound(d, i, addr).requests && d'.calls == CallFound(d, i, addr).calls))
  }

  /** The id in entry i, if it asks, is not one of another query's. */
  predicate OwnTxid(d: Dns, d': Dns, i: nat)
    requires i < |d.table| == |d'.table|
  {
    var e, e' := d.table[i], d'.table[i];
    e'.state == Asking ==> (e.state == Asking && e'.txid == e.txid) || !TxidUsed(d.table, e'.txid)
  }

  lemma {:induction false} CheckLocal(d: Dns, i: nat)
    requires Sized(d) && i < |d.table| && EntryOk(d, i)
    ensures var d' := CheckEntry(d, i); Local(d, d', i, None) && EntryOk(d', i) && OwnTxid(d, d', i)
  {
    CreatedTxidUnused(d.table, d.txid);
  }

  lemma {:induction false} RespondLocal(d: Dns, i: nat, reply: Reply)
    requires Sized(d) && i < |d.table| && EntryOk(d, i) && d.table[i].state == Asking
    ensures var d' := Respond(d, i, reply);
      && Local(d, d', i, if reply.Address? then Some(reply.addr) else None) && EntryOk(d', i) && OwnTxid(d, d', i)
  {
    if reply.ErrorFlag? && Backup(d, d.table[i].server) {
      var d1 := WithEntry(d, i, d.table[i].(retries := d.maxRetries - 1, tmr := 1));
      CheckLocal(d1, i);
      assert CheckEntry(d1, i).table == d.table[i := CheckEntry(d1, i).table[i]];
    }
  }
}
