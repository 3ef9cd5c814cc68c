/**
 The socket table of lib/lwip/src/api/sockets.c with LWIP_NETCONN_FULLDUPLEX: one slot, and the critical sections on
 it.
 */
module SocketTable {
  import opened Options

  /** A netconn; id tells netconns apart. */
  datatype Conn = Conn(id: nat, tcp: bool)

  /** struct lwip_sock; lastdata names the left-over buffer of the last read. */
  datatype Sock = Sock(used: nat, pending: nat, conn: Option<Conn>, lastdata: Option<nat>)

  /** What has to be freed outside the critical section. */
  datatype Parts = Parts(conn: Option<Conn>, lastdata: Option<nat>)

  datatype Answer = Yes | No | Asserts

  const FREE_TCP := 1
  const FREE_FREE := 2

  /** The number of uses one slot can count: fd_used is a u8_t. */
  const MAX_USES := 255

  predicate Free(k: Sock) {
    k.conn == None && k.used == 0
  }

  /** sock_inc_used */
  function IncUsed(k: Sock): (r: (Sock, Answer))
    ensures r.1 == Yes ==> r.0 == k.(used := k.used + 1) || MAX_USES < k.used
    ensures r.1 == No ==> r.0 == k
    ensures k.used <= MAX_USES ==> (r.1 == Asserts <==> k.pending == 0 && k.used == MAX_USES)
  {
    if k.pending != 0 then (k, No)
    else
      var u := (k.used + 1) % 256;
      (k.(used := u), if u == 0 then Asserts else Yes)
  }

  /** free_socket_locked: the last use takes the parts out, an earlier one leaves a note to do so. */
  function FreeLocked(k: Sock, tcp: bool): (r: (Sock, Option<Parts>))
    requires 0 < k.used
    ensures r.0.used == k.used - 1
    ensures r.1.Some? <==> k.used == 1
    ensures r.1.Some? ==> r.1.value == Parts(k.conn, k.lastdata) && Free(r.0) && r.0.lastdata == None
    ensures r.1 == None ==> r.0.conn == k.conn && r.0.lastdata == k.lastdata
    ensures r.1 == None ==> r.0.pending != 0 && (r.0.pending % 2 == 1 <==> tcp)
  {
    var k1 := k.(used := k.used - 1);
    if 0 < k1.used then (k1.(pending := FREE_FREE + if tcp then FREE_TCP else 0), None)
    else (k1.(lastdata := None, conn := None), Some(Parts(k.conn, k.lastdata)))
  }

  /** done_socket, the critical section. */
  function Done(k: Sock): (r: (Sock, Option<Parts>))
    requires 0 < k.used
    ensures r.0.used == k.used - 1
    ensures r.1.Some? <==> k.used == 1 && k.pending != 0
    ensures r.1.Some? ==> r.1.value == Parts(k.conn, k.lastdata) && Free(r.0) && r.0.lastdata == None
    ensures r.1 == None ==> r.0 == k.(used := k.used - 1)
  {
    var k1 := k.(used := k.used - 1);
    if k1.used == 0 && k1.pending != 0 then FreeLocked(k1.(used := 1), k1.pending % 2 == 1) else (k1, None)
  }

  /** alloc_socket, the critical section of one round, when the slot is free. */
  function Allocated(k: Sock, c: Conn): Sock {
    k.(used := 1, pending := 0, conn := Some(c))
  }

  class Table {
    const sockets: array<Sock>

    constructor (n: nat)
      ensures fresh(sockets) && sockets.Length == n
      ensures forall i :: 0 <= i < n ==> sockets[i] == Sock(0, 0, None, None)
    {
      sockets := new Sock[n](_ => Sock(0, 0, None, None));
    }

    /** sock_inc_used */
    method SockIncUsed(s: nat) returns (r: Answer)
      requires s < sockets.Length
      modifies sockets
      ensures sockets[..] == old(sockets[..])[s := IncUsed(old(sockets[s])).0] && r == IncUsed(old(sockets[s])).1
    {
      if sockets[s].pending != 0 {
        r := No;
      } else {
        sockets[s] := sockets[s].(used := (sockets[s].used + 1) % 256);
        r := if sockets[s].used != 0 then Yes else Asserts;
      }
    }

    /** free_socket_locked */
    method FreeSocketLocked(s: nat, tcp: bool) returns (freed: Option<Parts>)
      requires s < sockets.Length && 0 < sockets[s].used
      modifies sockets
      ensures (sockets[s], freed) == FreeLocked(old(sockets[s]), tcp)
      ensures sockets[..] == old(sockets[..])[s := sockets[s]]
    {
      sockets[s] := sockets[s].(used := sockets[s].used - 1);
      if 0 < sockets[s].used {
        sockets[s] := sockets[s].(pending := FREE_FREE + if tcp then FREE_TCP else 0);
        return None;
      }
      freed := Some(Parts(sockets[s].conn, sockets[s].lastdata));
      sockets[s] := sockets[s].(lastdata := None);
      sockets[s] := sockets[s].(conn := None);
    }

    /** done_socket: what the caller then frees, and as what. */
    method DoneSocket(s: nat) returns (freed: Option<Parts>, tcp: bool)
      requires s < sockets.Length && 0 < sockets[s].used
      modifies sockets
      ensures (sockets[s], freed) == Done(old(sockets[s]))
      ensures (freed.Some? ==> tcp == (old(sockets[s].pending) % 2 == 1))
      ensures sockets[..] == old(sockets[..])[s := sockets[s]]
    {
      freed, tcp := None, false;
      sockets[s] := sockets[s].(used := sockets[s].used - 1);
      if sockets[s].used == 0 {
        if sockets[s].pending != 0 {
          sockets[s] := sockets[s].(used := 1);
          tcp := sockets[s].pending % 2 == 1;
          freed := FreeSocketLocked(s, tcp);
        }
      }
    }

    /**
     tryget_socket without interference: a use is counted exactly when the descriptor is open and not being closed.
     */
    method TrygetSocket(fd: int, offset: int) returns (r: Option<nat>, asserts: bool)
      requires forall i :: 0 <= i < sockets.Length ==> sockets[i].used <= MAX_USES
      modifies sockets
      ensures var s, before := fd - offset, old(sockets[..]);
        var open := 0 <= s < |before| && before[s].conn.Some? && before[s].pending == 0;
        && asserts == (0 <= s < |before| && before[s].pending == 0 && before[s].used == MAX_USES)
        && (!asserts ==> r == if open then Some(s) else None)
        && (!asserts ==> sockets[..] == if open then before[s := before[s].(used := before[s].used + 1)] else before)
    {
      r, asserts := None, false;
      var s := fd - offset;
      if s < 0 || s >= sockets.Length { return; }
      ghost var before := sockets[..];
      var a := SockIncUsed(s);
      if a == Yes {
        if sockets[s].conn.Some? { return Some(s), false; }
        var freed, tcp := DoneSocket(s);
        assert sockets[s] == before[s];
        assert sockets[..] == before;
      } else if a == Asserts {
        asserts := true;
      }
    }

    /** alloc_socket without interference: the lowest free slot; None stands for -1. */
    method AllocSocket(c: Conn) returns (r: Option<nat>)
      modifies sockets
      ensures r == None <==> forall i :: 0 <= i < sockets.Length ==> !Free(old(sockets[..])[i])
      ensures r == None ==> sockets[..] == old(sockets[..])
      ensures r.Some? ==> r.value < sockets.Length && Free(old(sockets[..])[r.value])
      ensures r.Some? ==> forall i :: 0 <= i < r.value ==> !Free(old(sockets[..])[i])
      ensures r.Some? ==>
        sockets[..] == old(sockets[..])[r.value := Allocated(old(sockets[..])[r.value], c).(lastdata := None)]
    {
      for i := 0 to sockets.Length
        invariant sockets[..] == old(sockets[..]) && forall j :: 0 <= j < i ==> !Free(old(sockets[..])[j])
      {
        if sockets[i].conn == None {
          if sockets[i].used != 0 { continue; }
          sockets[i] := sockets[i].(used := 1);
          sockets[i] := sockets[i].(pending := 0);
          sockets[i] := sockets[i].(conn := Some(c));
          sockets[i] := sockets[i].(lastdata := None);
          return Some(i);
        }
      }
      r := None;
    }
  }
}
