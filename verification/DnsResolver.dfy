/** The resolver's functions (lib/lwip/src/core/dns.c) on its tables in place. */
module DnsResolver {
  import opened Options
  import opened DnsTable
  import opened DnsRuns

  class Resolver {
    const table: array<Entry>
    const requests: array<Option<nat>>
    const servers: array<nat>
    const maxRetries: nat
    var seqno: nat
    var txid: nat
    var next: nat
    ghost var calls: seq<Call>

    ghost function State(): Dns
      reads this, table, requests, servers
    {
      Dns(table[..], requests[..], servers[..], seqno, txid, maxRetries, next, calls)
    }

    constructor (n: nat, m: nat, retries: nat)
      requires n <= 255 && 1 <= m <= 255 && 1 <= retries <= 255
      ensures fresh(table) && fresh(requests) && fresh(servers)
      ensures State() == Init(n, seq(m, _ => 0), retries) && Inv(State())
    {
      InitInv(n, seq(m, _ => 0), retries);
      table := new Entry[n](_ => Entry(Unused, 0, 0, 0, 0, 0, 0, 0));
      requests := new Option<nat>[n](_ => None);
      servers := new nat[m](_ => 0);
      maxRetries, seqno, txid, next, calls := retries, 0, 0, 0, [];
    }

    /** dns_setserver */
    method SetServer(k: nat, addr: nat)
      modifies servers
      ensures State() == DnsRuns.SetServer(old(State()), k, addr)
    {
      if k < servers.Length { servers[k] := addr; }
    }

    /** The check in dns_create_txid. */
    method InUse(id: nat) returns (r: bool)
      ensures r == TxidUsed(table[..], id)
    {
      for i := 0 to table.Length
        invariant forall j :: 0 <= j < i ==> !(table[j].state == Asking && table[j].txid == id)
      {
        if table[i].state == Asking && table[i].txid == id {
          assert table[..][i] == table[i];
          return true;
        }
      }
      r := false;
    }

    /** dns_create_txid with the counting generator. */
    method CreateTxid() returns (id: nat)
      requires table.Length <= 255
      modifies this`txid
      ensures id == txid == FreeTxid(table[..], old(txid), 1)
      ensures !TxidUsed(table[..], id)
    {
      ghost var t, start := table[..], txid;
      TxidExists(t, start);
      ghost var m :| 1 <= m <= |t| + 1 && !Taken(t, start, m);
      ghost var k := 1;
      CreatedTxidUnused(t, start);
      while true
        invariant 1 <= k <= m && txid % TXIDS == (start + k - 1) % TXIDS
        invariant FreeTxid(t, start, 1) == FreeTxid(t, start, k)
        decreases m - k
      {
        TxidRound(t, txid, start, k);
        txid := (txid + 1) % TXIDS;
        var used := InUse(txid);
        if !used { return txid; }
        k := k + 1;
      }
    }

    /** dns_call_found */
    method CallFound(i: nat, addr: Option<nat>)
      requires i < requests.Length
      modifies requests, this`calls
      ensures State() == DnsTable.CallFound(old(State()), i, addr)
    {
      if requests[i].Some? {
        calls := calls + [Call(requests[i].value, addr)];
      }
      requests[i] := None;
    }

    /** dns_send, as far as it changes the tables. */
    method Send(i: nat)
      requires Sized(State()) && i < table.Length && table[i].server < servers.Length
      modifies table, requests, this`calls
      ensures State() == DnsTable.Send(old(State()), i)
    {
      if servers[table[i].server] == 0 {
        CallFound(i, None);
        table[i] := table[i].(state := Unused);
      }
    }

    /** dns_check_entry */
    method CheckEntry(i: nat)
      requires Sized(State()) && i < table.Length && EntryOk(State(), i)
      modifies table, requests, this`calls, this`txid
      ensures State() == DnsTable.CheckEntry(old(State()), i)
    {
      match table[i].state
      case New =>
        var id := CreateTxid();
        table[i] := table[i].(txid := id, state := Asking, server := 0, tmr := 1, retries := 0);
        Send(i);
      case Asking => CheckAsking(i);
      case Done =>
        if table[i].ttl != 0 { table[i] := table[i].(ttl := table[i].ttl - 1); }
        if table[i].ttl == 0 { table[i] := table[i].(state := Unused); }
      case Unused =>
    }

    method CheckAsking(i: nat)
      requires Sized(State()) && i < table.Length && EntryOk(State(), i) && table[i].state == Asking
      modifies table, requests, this`calls
      ensures State() == DnsTable.CheckEntry(old(State()), i)
    {
      table[i] := table[i].(tmr := table[i].tmr - 1);
      if table[i].tmr == 0 {
        table[i] := table[i].(retries := table[i].retries + 1);
        if table[i].retries == maxRetries {
          var backup := BackupAvailable(i);
          if backup {
            table[i] := table[i].(server := table[i].server + 1, tmr := 1, retries := 0);
          } else {
            CallFound(i, None);
            table[i] := table[i].(state := Unused);
            return;
          }
        } else {
          table[i] := table[i].(tmr := table[i].retries);
        }
        Send(i);
      }
    }

    /** dns_backupserver_available */
    method BackupAvailable(i: nat) returns (r: bool)
      requires i < table.Length
      ensures r == Backup(State(), table[i].server)
    {
      r := table[i].server + 1 < servers.Length && servers[table[i].server + 1] != 0;
    }

    /** dns_check_entries, called by dns_tmr. */
    method CheckEntries()
      requires Good(State())
      modifies table, requests, this`calls, this`txid
      ensures State() == Step(old(State()), Tick)
    {
      ghost var d := State();
      for i := 0 to table.Length
        invariant State() == Ticked(d, i)
      {
        assert EntryOk(State(), i);
        CheckEntry(i);
      }
    }

    /** dns_correct_response, after the address was stored. */
    method CorrectResponse(i: nat, addr: nat, ttl: nat)
      requires Sized(State()) && i < table.Length && EntryOk(State(), i) && table[i].state == Asking
      modifies table, requests, this`calls
      ensures State() == Respond(old(State()), i, Address(addr, ttl))
    {
      table[i] := table[i].(addr := addr, state := Done, ttl := ttl);
      if table[i].ttl > MAX_TTL { table[i] := table[i].(ttl := MAX_TTL); }
      CallFound(i, Some(addr));
      if table[i].ttl == 0 { table[i] := table[i].(state := Unused); }
    }

    /** The part of dns_recv behind the checks on the message. */
    method Answer(i: nat, reply: Reply)
      requires Sized(State()) && i < table.Length && EntryOk(State(), i) && table[i].state == Asking
      modifies table, requests, this`calls, this`txid
      ensures State() == Respond(old(State()), i, reply)
    {
      match reply
      case Bad =>
      case ErrorFlag =>
        var backup := BackupAvailable(i);
        if backup {
          table[i] := table[i].(retries := maxRetries - 1, tmr := 1);
          CheckEntry(i);
        } else {
          CallFound(i, None);
          table[i] := table[i].(state := Unused);
        }
      case NoAddress =>
        CallFound(i, None);
        table[i] := table[i].(state := Unused);
      case Address(addr, ttl) => CorrectResponse(i, addr, ttl);
    }

    /** dns_recv */
    method Recv(from: nat, id: nat, reply: Reply)
      requires Good(State())
      modifies table, requests, this`calls, this`txid
      ensures State() == Receive(old(State()), from, id, reply)
    {
      ghost var d := State();
      for i := 0 to table.Length
        invariant State() == d && Match(d.table, id, 0) == Match(d.table, id, i)
      {
        if table[i].state == Asking && table[i].txid == id {
          assert EntryOk(State(), i) && d.table[i] == table[i];
          if servers[table[i].server] == from { Answer(i, reply); }
          return;
        }
      }
    }

    /** The search of dns_enqueue. */
    method Choose() returns (r: Option<nat>)
      ensures r == Pick(table[..], seqno)
    {
      ghost var t := table[..];
      var lseq, lseqi := 0, table.Length;
      for i := 0 to table.Length
        invariant FirstUnused(t, 0) == FirstUnused(t, i) && (lseq, lseqi) == Oldest(t, seqno, i)
      {
        if table[i].state == Unused { return Some(i); }
        if table[i].state == Done {
          var age := (seqno - table[i].seqno) % 256;
          if age > lseq { lseq, lseqi := age, i; }
        }
      }
      if lseqi >= table.Length || table[lseqi].state != Done { return None; }
      r := Some(lseqi);
    }

    /** dns_enqueue; notify says whether the caller gave a callback. */
    method Enqueue(notify: bool) returns (ok: bool)
      requires Good(State())
      modifies table, requests, this`calls, this`txid, this`seqno, this`next
      ensures (State(), ok) == DnsRuns.Enqueue(old(State()), notify)
    {
      PickIs(table[..], seqno);
      var r := Choose();
      if r == None { return false; }
      Fill(r.value, notify);
      CheckEntry(r.value);
      ok := true;
    }

    method Fill(i: nat, notify: bool)
      requires Sized(State()) && i < table.Length
      modifies table, requests, this`seqno, this`next
      ensures State() == Filled(old(State()), i, notify)
    {
      table[i] := table[i].(state := New, seqno := seqno);
      requests[i] := if notify then Some(next) else None;
      next := next + if notify then 1 else 0;
      seqno := (seqno + 1) % 256;
    }
  }
}
