/**
 Threads sharing the socket table: every interleaving of lwip_socket, lwip_accept, lwip_close, the reads and the other
 functions that use a descriptor between get_socket and done_socket.  Each critical section is one step, and so is each
 access to a slot outside one.
 */
module SocketRuns {
  import opened Options
  import opened SocketTable
  import opened Sums

  /**
   Where an activity is.  A thread with two descriptors in hand, as in lwip_accept, is two activities.
   Scanning: alloc_socket is about to look at slot i; Created: it took slot s but has not cleared lastdata;
   Checking: the use is counted, conn not yet looked at; Leaving: there was no conn, the use is to be dropped;
   Holding: between get_socket and done_socket; Reading: inside lwip_recv_tcp or lwip_recvfrom_udp_raw;
   Closing: lwip_close is about to call free_socket; Freeing: these parts are to be freed outside the lock.
   */
  datatype Pc =
    | Idle
    | Scanning(c: Conn, i: nat)
    | Created(s: nat, c: Conn)
    | Checking(s: nat)
    | Leaving(s: nat)
    | Holding(s: nat, c: Conn)
    | Reading(s: nat, c: Conn, stage: Stage)
    | Closing(s: nat, c: Conn, tcp: bool)
    | Freeing(tcp: bool, parts: Parts)

  /**
   How far a read is.  Waiting: in netconn_recv; Received: with a buffer not stored in the slot yet; Copying: out of
   this buffer, found in the slot or stored there; Splitting: the pbufs read to the end are freed, the rest of the chain
   is about to be stored; Dropping: the slot is cleared, the buffer about to be freed.
   */
  datatype Stage = Waiting | Received(x: nat) | Copying(x: nat) | Splitting(x: nat, rest: nat) | Dropping(x: nat)

  /**
   The accesses of a read: what is left over is loaded (the test and the load count as one access), stored, split into
   what was read and the rest, kept, or cleared and freed.
   */
  datatype ReadAction = Load | Receive | Miss | Store | Peek | Split | Keep | Erase | FreeBuffer

  datatype Action =
    | Make(tcp: bool) | Scan | Clear            // lwip_socket, lwip_accept
    | Get(fd: int) | Check | Drop               // get_socket, done_socket
    | Read(r: ReadAction)                       // lwip_recv_tcp, lwip_recvfrom_udp_raw
    | Prepare | Release                         // lwip_close
    | Delete                                    // free_socket_free_elements

  /**
   next numbers the netconns; deleted logs what was freed, and as what.  nextData numbers the buffers received
   and the rests of split ones; read logs those a read freed, a split one when its rest is stored.
   */
  datatype State = State(socks: seq<Sock>, pcs: seq<Pc>, next: nat, deleted: seq<(bool, Parts)>,
                         nextData: nat, read: seq<nat>)

  /** Disabled: the activity is somewhere else; Asserts: an LWIP_ASSERT fires. */
  datatype Outcome = Next(st: State) | Disabled | Asserted

  function Moved(st: State, t: nat, pc: Pc): State
    requires t < |st.pcs|
  {
    st.(pcs := st.pcs[t := pc])
  }

  function After(tcp: bool, parts: Option<Parts>): Pc {
    if parts.Some? then Freeing(tcp, parts.value) else Idle
  }

  /** Is slot s one the activity has counted a use of? */
  predicate Uses(pc: Pc, s: nat) {
    (pc.Created? || pc.Checking? || pc.Leaving? || pc.Holding? || pc.Reading? || pc.Closing?) && pc.s == s
  }

  /** The slot an activity names exists. */
  predicate PcTyped(socks: seq<Sock>, pc: Pc) {
    pc.Created? || pc.Checking? || pc.Leaving? || pc.Holding? || pc.Reading? || pc.Closing? ==> pc.s < |socks|
  }

  function ScanStep(st: State, t: nat, c: Conn, i: nat): State
    requires t < |st.pcs|
  {
    if |st.socks| <= i then Moved(st, t, Freeing(c.tcp, Parts(Some(c), None)))
    else if !Free(st.socks[i]) then Moved(st, t, Scanning(c, i + 1))
    else Moved(st, t, Created(i, c)).(socks := st.socks[i := Allocated(st.socks[i], c)])
  }

  function GetStep(st: State, t: nat, fd: int): Outcome
    requires t < |st.pcs|
  {
    if fd < 0 || |st.socks| <= fd then Next(st)
    else
      var r := IncUsed(st.socks[fd]);
      match r.1
      case Yes => Next(Moved(st, t, Checking(fd)).(socks := st.socks[fd := r.0]))
      case No => Next(st)
      case Asserts => Asserted
  }

  function DropStep(st: State, t: nat, s: nat): Outcome
    requires t < |st.pcs| && s < |st.socks|
  {
    if st.socks[s].used == 0 then Asserted
    else
      var r := Done(st.socks[s]);
      Next(Moved(st, t, After(st.socks[s].pending % 2 == 1, r.1)).(socks := st.socks[s := r.0]))
  }

  function ReleaseStep(st: State, t: nat, s: nat, tcp: bool): Outcome
    requires t < |st.pcs| && s < |st.socks|
  {
    if st.socks[s].used == 0 then Asserted
    else
      var r := FreeLocked(st.socks[s], tcp);
      Next(Moved(st, t, After(tcp, r.1)).(socks := st.socks[s := r.0]))
  }

  /** The activity goes on using its slot, with this left over. */
  function DataStep(st: State, t: nat, pc: Pc, data: Option<nat>): State
    requires t < |st.pcs| && (pc.Holding? || pc.Reading?) && pc.s < |st.socks|
  {
    Moved(st, t, pc).(socks := st.socks[pc.s := st.socks[pc.s].(lastdata := data)])
  }

  function ReadStep(st: State, t: nat, s: nat, c: Conn, stage: Option<Stage>, r: ReadAction): Outcome
    requires t < |st.pcs| && s < |st.socks|
  {
    var left := st.socks[s].lastdata;
    match (r, stage)
    case (Load, None) => Next(Moved(st, t, Reading(s, c, if left.Some? then Copying(left.value) else Waiting)))
    case (Receive, Some(Waiting)) =>
      Next(Moved(st, t, Reading(s, c, Received(st.nextData))).(nextData := st.nextData + 1))
    case (Miss, Some(Waiting)) => Next(Moved(st, t, Holding(s, c)))
    case (Store, Some(Received(x))) => Next(DataStep(st, t, Reading(s, c, Copying(x)), Some(x)))
    case (Peek, Some(Copying(x))) => Next(Moved(st, t, Holding(s, c)))
    case (Split, Some(Copying(x))) =>
      Next(Moved(st, t, Reading(s, c, Splitting(x, st.nextData))).(nextData := st.nextData + 1))
    case (Keep, Some(Copying(x))) => Next(DataStep(st, t, Holding(s, c), Some(x)))
    case (Keep, Some(Splitting(x, rest))) =>
      Next(DataStep(st, t, Holding(s, c), Some(rest)).(read := st.read + [x]))
    case (Erase, Some(Copying(x))) => Next(DataStep(st, t, Reading(s, c, Dropping(x)), None))
    case (FreeBuffer, Some(Dropping(x))) => Next(Moved(st, t, Holding(s, c)).(read := st.read + [x]))
    case _ => Disabled
  }

  function StageOf(pc: Pc): Option<Stage> {
    if pc.Reading? then Some(pc.stage) else None
  }

  function Step(st: State, t: nat, a: Action): Outcome
    requires t < |st.pcs| && PcTyped(st.socks, st.pcs[t])
  {
    var pc := st.pcs[t];
    match a
    case Make(tcp) =>
      if pc.Idle? then Next(Moved(st, t, Scanning(Conn(st.next, tcp), 0)).(next := st.next + 1)) else Disabled
    case Scan => if pc.Scanning? then Next(ScanStep(st, t, pc.c, pc.i)) else Disabled
    case Clear => if pc.Created? then Next(DataStep(st, t, Holding(pc.s, pc.c), None)) else Disabled
    case Get(fd) => if pc.Idle? then GetStep(st, t, fd) else Disabled
    case Check =>
      if !pc.Checking? then Disabled
      else if st.socks[pc.s].conn.Some? then Next(Moved(st, t, Holding(pc.s, st.socks[pc.s].conn.value)))
      else Next(Moved(st, t, Leaving(pc.s)))
    case Drop => if pc.Leaving? || pc.Holding? then DropStep(st, t, pc.s) else Disabled
    case Read(r) => if pc.Holding? || pc.Reading? then ReadStep(st, t, pc.s, pc.c, StageOf(pc), r) else Disabled
    case Prepare => if pc.Holding? then Next(Moved(st, t, Closing(pc.s, pc.c, pc.c.tcp))) else Disabled
    case Release => if pc.Closing? then ReleaseStep(st, t, pc.s, pc.tcp) else Disabled
    case Delete =>
      if pc.Freeing? then Next(Moved(st, t, Idle).(deleted := st.deleted + [(pc.tcp, pc.parts)])) else Disabled
  }

  // ----- counting -----

  function UseOf(s: nat): Pc -> nat {
    (pc: Pc) => if Uses(pc, s) then 1 else 0
  }

  /** How many activities have counted a use of slot s. */
  function Users(st: State, s: nat): nat {
    Sum(st.pcs, UseOf(s))
  }

  predicate Has(c: Option<Conn>, id: nat) {
    c.Some? && c.value.id == id
  }

  function InSlot(id: nat): Sock -> nat {
    (k: Sock) => if Has(k.conn, id) then 1 else 0
  }

  function InHand(id: nat): Pc -> nat {
    (pc: Pc) => if (pc.Scanning? && pc.c.id == id) || (pc.Freeing? && Has(pc.parts.conn, id)) then 1 else 0
  }

  function Gone(id: nat): ((bool, Parts)) -> nat {
    (d: (bool, Parts)) => if Has(d.1.conn, id) then 1 else 0
  }

  /** In how many places a netconn is owned: a slot, an activity about to store or free it, the log of freed ones. */
  function Owners(st: State, id: nat): nat {
    Sum(st.socks, InSlot(id)) + Sum(st.pcs, InHand(id)) + Sum(st.deleted, Gone(id))
  }

  // ----- the invariant -----

  /**
   A close is noted only while some use is left, with the right kind; a slot without netconn has nothing left over.
   */
  predicate Tidy(k: Sock) {
    && k.used <= MAX_USES
    && (k.pending != 0 && k.conn.Some? ==> 0 < k.used && (k.pending % 2 == 1 <==> k.conn.value.tcp))
    && (k.pending != 0 && 0 < k.used ==> k.conn.Some?)
    && (k.conn == None ==> k.lastdata == None)
  }

  ghost predicate SlotOk(st: State, s: nat)
    requires s < |st.socks|
  {
    st.socks[s].used == Users(st, s) && Tidy(st.socks[s])
  }

  /** The netconn an activity works with stays in its slot. */
  ghost predicate PcOk(socks: seq<Sock>, pc: Pc) {
    match pc
    case Idle => true
    case Scanning(_, _) => true
    case Created(s, c) => s < |socks| && socks[s].conn == Some(c)
    case Checking(s) => s < |socks|
    case Leaving(s) => s < |socks| && socks[s].conn == None
    case Holding(s, c) => s < |socks| && socks[s].conn == Some(c)
    case Reading(s, c, _) => s < |socks| && socks[s].conn == Some(c)
    case Closing(s, c, tcp) => s < |socks| && socks[s].conn == Some(c) && tcp == c.tcp
    case Freeing(tcp, parts) => parts.conn.Some? && parts.conn.value.tcp == tcp
  }

  /** Everything freed had its netconn, and its left-over data was freed as that netconn's kind. */
  ghost predicate RightKind(deleted: seq<(bool, Parts)>) {
    forall i :: 0 <= i < |deleted| ==> deleted[i].1.conn.Some? && deleted[i].0 == deleted[i].1.conn.value.tcp
  }

  ghost predicate Inv(st: State) {
    && RightKind(st.deleted)
    && (forall s :: 0 <= s < |st.socks| ==> SlotOk(st, s))
    && (forall t :: 0 <= t < |st.pcs| ==> PcOk(st.socks, st.pcs[t]))
    && (forall id: nat :: Owners(st, id) == if id < st.next then 1 else 0)
  }

  // ----- one step -----

  /** With a single use counted, by activity t, nobody else uses the slot. */
  lemma {:induction false} OnlyUser(pcs: seq<Pc>, t: nat, s: nat, u: nat)
    requires t < |pcs| && u < |pcs| && u != t && Sum(pcs, UseOf(s)) == UseOf(s)(pcs[t])
    ensures !Uses(pcs[u], s)
  {
    SumUpdate(pcs, UseOf(s), t, Idle);
    SumAtLeast(pcs[t := Idle], UseOf(s), u);
  }

  /** An activity moves and leaves the slots alone. */
  lemma {:induction false} PcStep(st: State, st': State, t: nat, pc: Pc)
    requires Inv(st) && t < |st.pcs| && st'.socks == st.socks && st'.pcs == st.pcs[t := pc]
    requires forall s :: Uses(pc, s) <==> Uses(st.pcs[t], s)
    requires PcOk(st.socks, pc) && RightKind(st'.deleted)
    requires forall id: nat :: Owners(st', id) == if id < st'.next then 1 else 0
    ensures Inv(st')
  {
    forall s | 0 <= s < |st.socks| ensures SlotOk(st', s) {
      assert SlotOk(st, s);
      SumUpdate(st.pcs, UseOf(s), t, pc);
    }
  }

  /** An activity moves and slot s becomes k. */
  lemma {:induction false} SlotStep(st: State, st': State, t: nat, pc: Pc, s: nat, k: Sock)
    requires Inv(st) && t < |st.pcs| && s < |st.socks| && st' == st.(pcs := st.pcs[t := pc], socks := st.socks[s := k])
    requires forall x :: x != s ==> !Uses(pc, x) && !Uses(st.pcs[t], x)
    requires k.used + UseOf(s)(st.pcs[t]) == st.socks[s].used + UseOf(s)(pc) && Tidy(k)
    requires k.conn == st.socks[s].conn || st.socks[s].used == UseOf(s)(st.pcs[t])
    requires PcOk(st'.socks, pc)
    requires forall id: nat :: InSlot(id)(k) + InHand(id)(pc) == InSlot(id)(st.socks[s]) + InHand(id)(st.pcs[t])
    ensures Inv(st')
  {
    assert SlotOk(st, s);
    forall x | 0 <= x < |st'.socks| ensures SlotOk(st', x) {
      assert SlotOk(st, x);
      SumUpdate(st.pcs, UseOf(x), t, pc);
    }
    forall u | 0 <= u < |st'.pcs| ensures PcOk(st'.socks, st'.pcs[u]) {
      if u != t {
        assert PcOk(st.socks, st.pcs[u]);
        if k.conn != st.socks[s].conn { OnlyUser(st.pcs, t, s, u); }
      }
    }
    forall id: nat ensures Owners(st', id) == if id < st'.next then 1 else 0 {
      assert Owners(st, id) == if id < st.next then 1 else 0;
      SumUpdate(st.socks, InSlot(id), s, k);
      SumUpdate(st.pcs, InHand(id), t, pc);
    }
  }

  lemma {:induction false} MakeKeepsInv(st: State, t: nat, tcp: bool)
    requires Inv(st) && t < |st.pcs| && st.pcs[t].Idle?
    ensures Inv(Moved(st, t, Scanning(Conn(st.next, tcp), 0)).(next := st.next + 1))
  {
    var pc := Scanning(Conn(st.next, tcp), 0);
    var st' := Moved(st, t, pc).(next := st.next + 1);
    forall id: nat ensures Owners(st', id) == if id < st'.next then 1 else 0 {
      assert Owners(st, id) == if id < st.next then 1 else 0;
      SumUpdate(st.pcs, InHand(id), t, pc);
    }
    PcStep(st, st', t, pc);
  }

  lemma {:induction false} DeleteKeepsInv(st: State, t: nat)
    requires Inv(st) && t < |st.pcs| && st.pcs[t].Freeing?
    ensures Inv(Moved(st, t, Idle).(deleted := st.deleted + [(st.pcs[t].tcp, st.pcs[t].parts)]))
  {
    var d := (st.pcs[t].tcp, st.pcs[t].parts);
    var st' := Moved(st, t, Idle).(deleted := st.deleted + [d]);
    forall id: nat ensures Owners(st', id) == if id < st'.next then 1 else 0 {
      assert Owners(st, id) == if id < st.next then 1 else 0;
      SumUpdate(st.pcs, InHand(id), t, Idle);
      SumSnoc(st.deleted, Gone(id), d);
    }
    PcStep(st, st', t, Idle);
  }

  /** Moves that take no netconn over and give none away. */
  lemma {:induction false} MoveKeepsInv(st: State, t: nat, pc: Pc)
    requires Inv(st) && t < |st.pcs| && PcOk(st.socks, pc)
    requires forall s :: Uses(pc, s) <==> Uses(st.pcs[t], s)
    requires forall id: nat :: InHand(id)(pc) == InHand(id)(st.pcs[t])
    ensures Inv(Moved(st, t, pc))
  {
    var st' := Moved(st, t, pc);
    forall id: nat ensures Owners(st', id) == if id < st'.next then 1 else 0 {
      assert Owners(st, id) == if id < st.next then 1 else 0;
      SumUpdate(st.pcs, InHand(id), t, pc);
    }
    PcStep(st, st', t, pc);
  }

  lemma {:induction false} ScanKeepsInv(st: State, t: nat)
    requires Inv(st) && t < |st.pcs| && st.pcs[t].Scanning?
    ensures Inv(ScanStep(st, t, st.pcs[t].c, st.pcs[t].i))
  {
    var c, i := st.pcs[t].c, st.pcs[t].i;
    if |st.socks| <= i {
      MoveKeepsInv(st, t, Freeing(c.tcp, Parts(Some(c), None)));
    } else if !Free(st.socks[i]) {
      MoveKeepsInv(st, t, Scanning(c, i + 1));
    } else {
      SlotStep(st, ScanStep(st, t, c, i), t, Created(i, c), i, Allocated(st.socks[i], c));
    }
  }

  /** The assertion against overflow fires exactly when 255 uses are already counted. */
  lemma {:induction false} GetKeepsInv(st: State, t: nat, fd: int)
    requires Inv(st) && t < |st.pcs| && st.pcs[t].Idle?
    ensures GetStep(st, t, fd).Asserted? <==>
      0 <= fd < |st.socks| && st.socks[fd].pending == 0 && Users(st, fd) == MAX_USES
    ensures !GetStep(st, t, fd).Disabled? && (GetStep(st, t, fd).Next? ==> Inv(GetStep(st, t, fd).st))
  {
    if 0 <= fd < |st.socks| {
      assert SlotOk(st, fd);
      var r := IncUsed(st.socks[fd]);
      if r.1 == Yes { SlotStep(st, GetStep(st, t, fd).st, t, Checking(fd), fd, r.0); }
    }
  }

  /** An activity that counts a use finds the count positive. */
  lemma {:induction false} Counted(st: State, t: nat, s: nat)
    requires Inv(st) && t < |st.pcs| && s < |st.socks| && Uses(st.pcs[t], s)
    ensures 0 < st.socks[s].used == Users(st, s)
  {
    assert SlotOk(st, s);
    SumAtLeast(st.pcs, UseOf(s), t);
  }

  lemma {:induction false} DropKeepsInv(st: State, t: nat)
    requires Inv(st) && t < |st.pcs| && (st.pcs[t].Leaving? || st.pcs[t].Holding?) && st.pcs[t].s < |st.socks|
    ensures DropStep(st, t, st.pcs[t].s).Next? && Inv(DropStep(st, t, st.pcs[t].s).st)
  {
    var s := st.pcs[t].s;
    Counted(st, t, s);
    assert SlotOk(st, s) && PcOk(st.socks, st.pcs[t]);
    var r := Done(st.socks[s]);
    SlotStep(st, DropStep(st, t, s).st, t, After(st.socks[s].pending % 2 == 1, r.1), s, r.0);
  }

  lemma {:induction false} ReleaseKeepsInv(st: State, t: nat)
    requires Inv(st) && t < |st.pcs| && st.pcs[t].Closing? && st.pcs[t].s < |st.socks|
    ensures ReleaseStep(st, t, st.pcs[t].s, st.pcs[t].tcp).Next?
    ensures Inv(ReleaseStep(st, t, st.pcs[t].s, st.pcs[t].tcp).st)
  {
    var s, tcp := st.pcs[t].s, st.pcs[t].tcp;
    Counted(st, t, s);
    assert SlotOk(st, s) && PcOk(st.socks, st.pcs[t]);
    var r := FreeLocked(st.socks[s], tcp);
    SlotStep(st, ReleaseStep(st, t, s, tcp).st, t, After(tcp, r.1), s, r.0);
  }

  lemma {:induction false} DataKeepsInv(st: State, t: nat, pc: Pc, data: Option<nat>)
    requires Inv(st) && t < |st.pcs| && (st.pcs[t].Created? || st.pcs[t].Holding? || st.pcs[t].Reading?)
    requires (pc.Holding? || pc.Reading?) && pc.s == st.pcs[t].s < |st.socks| && pc.c == st.pcs[t].c
    ensures Inv(DataStep(st, t, pc, data))
  {
    assert SlotOk(st, pc.s) && PcOk(st.socks, st.pcs[t]);
    SlotStep(st, DataStep(st, t, pc, data), t, pc, pc.s, st.socks[pc.s].(lastdata := data));
  }

  /** Whatever a read does to left-over data, uses and netconns are kept. */
  lemma {:induction false} ReadKeepsInv(st: State, t: nat, r: ReadAction)
    requires Inv(st) && t < |st.pcs| && (st.pcs[t].Holding? || st.pcs[t].Reading?) && st.pcs[t].s < |st.socks|
    ensures var o := ReadStep(st, t, st.pcs[t].s, st.pcs[t].c, StageOf(st.pcs[t]), r);
      !o.Asserted? && (o.Next? ==> Inv(o.st))
  {
    var pc := st.pcs[t];
    assert PcOk(st.socks, pc);
    var o := ReadStep(st, t, pc.s, pc.c, StageOf(pc), r);
    if o.Next? {
      var pc' := o.st.pcs[t];
      if r.Store? || r.Keep? || r.Erase? {
        DataKeepsInv(st, t, pc', o.st.socks[pc.s].lastdata);
        LogsDoNotMatter(DataStep(st, t, pc', o.st.socks[pc.s].lastdata), o.st);
      } else {
        MoveKeepsInv(st, t, pc');
        LogsDoNotMatter(Moved(st, t, pc'), o.st);
      }
    }
  }

  /** Neither counter nor log of left-over data matters for the uses and the netconns. */
  lemma {:induction false} LogsDoNotMatter(st: State, st': State)
    requires Inv(st) && st' == st.(nextData := st'.nextData, read := st'.read)
    ensures Inv(st')
  {
    forall s | 0 <= s < |st'.socks| ensures SlotOk(st', s) { assert SlotOk(st, s); }
    forall id: nat ensures Owners(st', id) == if id < st'.next then 1 else 0 {
      assert Owners(st, id) == if id < st.next then 1 else 0;
    }
  }

  /** Every step keeps the invariant, and of all assertions only the one against overflow of the use count can fire. */
  lemma {:induction false} StepKeepsInv(st: State, t: nat, a: Action)
    requires Inv(st) && t < |st.pcs|
    ensures PcOk(st.socks, st.pcs[t])
    ensures Step(st, t, a).Next? ==> Inv(Step(st, t, a).st)
    ensures Step(st, t, a).Asserted? <==>
      a.Get? && st.pcs[t].Idle? && 0 <= a.fd < |st.socks| && st.socks[a.fd].pending == 0 && Users(st, a.fd) == MAX_USES
  {
    var pc := st.pcs[t];
    assert PcOk(st.socks, pc);
    match a
    case Make(tcp) => if pc.Idle? { MakeKeepsInv(st, t, tcp); }
    case Scan => if pc.Scanning? { ScanKeepsInv(st, t); }
    case Clear => if pc.Created? { DataKeepsInv(st, t, Holding(pc.s, pc.c), None); }
    case Get(fd) => if pc.Idle? { GetKeepsInv(st, t, fd); }
    case Check =>
      if pc.Checking? {
        var conn := st.socks[pc.s].conn;
        MoveKeepsInv(st, t, if conn.Some? then Holding(pc.s, conn.value) else Leaving(pc.s));
      }
    case Drop => if pc.Leaving? || pc.Holding? { DropKeepsInv(st, t); }
    case Read(r) => if pc.Holding? || pc.Reading? { ReadKeepsInv(st, t, r); }
    case Prepare => if pc.Holding? { MoveKeepsInv(st, t, Closing(pc.s, pc.c, pc.c.tcp)); }
    case Release => if pc.Closing? { ReleaseKeepsInv(st, t); }
    case Delete => if pc.Freeing? { DeleteKeepsInv(st, t); }
  }

  // ----- whole runs -----

  function Init(slots: nat, activities: nat): State {
    State(seq(slots, _ => Sock(0, 0, None, None)), seq(activities, _ => Idle), 0, [], 0, [])
  }

  lemma {:induction false} InitInv(slots: nat, activities: nat)
    ensures Inv(Init(slots, activities))
  {
    var st := Init(slots, activities);
    forall s | 0 <= s < slots ensures SlotOk(st, s) { SumZero(st.pcs, UseOf(s)); }
    forall id: nat ensures Owners(st, id) == 0 {
      SumZero(st.socks, InSlot(id));
      SumZero(st.pcs, InHand(id));
    }
  }

  type Move = (nat, Action)

  /** Can the activity make this move? */
  predicate Makes(st: State, m: Move) {
    m.0 < |st.pcs| && PcTyped(st.socks, st.pcs[m.0]) && Step(st, m.0, m.1).Next?
  }

  /** The state after a move; one the activity cannot make changes nothing. */
  ghost function Stepped(st: State, m: Move): (r: Outcome)
    requires Inv(st)
    ensures !r.Disabled? && (r.Next? ==> Inv(r.st) && |r.st.pcs| == |st.pcs| && |r.st.socks| == |st.socks|)
    ensures m.0 < |st.pcs| ==> PcOk(st.socks, st.pcs[m.0])
  {
    if |st.pcs| <= m.0 then Next(st)
    else
      StepKeepsInv(st, m.0, m.1);
      var r := Step(st, m.0, m.1);
      if r.Disabled? then Next(st) else r
  }

  /** The state after a schedule of moves; a failed assertion ends the run. */
  ghost function Run(st: State, moves: seq<Move>): (r: Outcome)
    requires Inv(st)
    ensures !r.Disabled? && (r.Next? ==> Inv(r.st) && |r.st.pcs| == |st.pcs| && |r.st.socks| == |st.socks|)
    decreases |moves|
  {
    if moves == [] then Next(st)
    else
      var r := Stepped(st, moves[0]);
      if r.Next? then Run(r.st, moves[1..]) else r
  }

  lemma {:induction false} OneMove(st: State, st': State, t: nat, a: Action, rest: seq<Move>)
    requires Inv(st) && t < |st.pcs| && PcOk(st.socks, st.pcs[t]) && Step(st, t, a) == Next(st')
    ensures Inv(st') && Run(st, [(t, a)] + rest) == Run(st', rest)
  {
    StepKeepsInv(st, t, a);
    assert ([(t, a)] + rest)[1..] == rest;
  }

  lemma {:induction false} TwoMoves(st: State, m: Move, st1: State, n: Move, st2: State, rest: seq<Move>)
    requires Inv(st) && m.0 < |st.pcs| && PcOk(st.socks, st.pcs[m.0]) && Step(st, m.0, m.1) == Next(st1)
    requires n.0 < |st1.pcs| && PcOk(st1.socks, st1.pcs[n.0]) && Step(st1, n.0, n.1) == Next(st2)
    ensures Inv(st2) && Run(st, [m, n] + rest) == Run(st2, rest)
  {
    OneMove(st, st1, m.0, m.1, [n] + rest);
    OneMove(st1, st2, n.0, n.1, rest);
    assert [m, n] + rest == [m] + ([n] + rest);
  }

  // ----- one thread's calls -----

  /** get_socket: the use is counted and the netconn found, unless there is none, a close is noted or the count full. */
  lemma {:induction false} GetHolds(st: State, t: nat, fd: int)
    requires Inv(st) && t < |st.pcs| && st.pcs[t].Idle?
    ensures var r := Run(st, [(t, Get(fd)), (t, Check)] + []);
      if fd < 0 || |st.socks| <= fd || st.socks[fd].pending != 0 then r == Next(st)
      else if st.socks[fd].used == MAX_USES then r == Asserted
      else
        var k := st.socks[fd];
        r == Next(st.(socks := st.socks[fd := k.(used := k.used + 1)],
                      pcs := st.pcs[t := if k.conn.Some? then Holding(fd, k.conn.value) else Leaving(fd)]))
  {
    var moves: seq<Move> := [(t, Get(fd)), (t, Check)] + [];
    assert moves[1..] == [(t, Check)] && moves[1..][1..] == [];
    if 0 <= fd < |st.socks| { assert SlotOk(st, fd); }
    var r := Stepped(st, moves[0]);
    if r.Next? { assert Run(r.st, moves[1..]) == Stepped(r.st, (t, Check)); }
  }

  /** What a read leaves over is there for the next read. */
  lemma {:induction false} KeptIsFound(st: State, t: nat, x: nat)
    requires Inv(st) && t < |st.pcs| && st.pcs[t].Holding? && PcOk(st.socks, st.pcs[t])
    requires st.socks[st.pcs[t].s].lastdata == None && x == st.nextData
    ensures var pc := st.pcs[t];
      Run(st, [(t, Read(Load)), (t, Read(Receive))] + ([(t, Read(Store)), (t, Read(Keep))] + [(t, Read(Load))]))
      == Next(DataStep(st, t, Reading(pc.s, pc.c, Copying(x)), Some(x)).(nextData := x + 1))
  {
    var s, c, rest := st.pcs[t].s, st.pcs[t].c, [(t, Read(Store)), (t, Read(Keep))] + [(t, Read(Load))];
    var s1 := Moved(st, t, Reading(s, c, Waiting));
    var s2 := Moved(st, t, Reading(s, c, Received(x))).(nextData := x + 1);
    TwoMoves(st, (t, Read(Load)), s1, (t, Read(Receive)), s2, rest);
    StoredIsFound(s2, t, x);
    assert s2.pcs[t := Reading(s, c, Copying(x))] == st.pcs[t := Reading(s, c, Copying(x))];
  }

  lemma {:induction false} StoredIsFound(st: State, t: nat, x: nat)
    requires Inv(st) && t < |st.pcs| && PcOk(st.socks, st.pcs[t])
    requires st.pcs[t].Reading? && st.pcs[t].stage == Received(x)
    ensures var pc := st.pcs[t];
      Run(st, [(t, Read(Store)), (t, Read(Keep))] + [(t, Read(Load))])
      == Next(DataStep(st, t, Reading(pc.s, pc.c, Copying(x)), Some(x)))
  {
    var s, c := st.pcs[t].s, st.pcs[t].c;
    var s1 := DataStep(st, t, Reading(s, c, Copying(x)), Some(x));
    var s2 := DataStep(st, t, Holding(s, c), Some(x));
    TwoMoves(st, (t, Read(Store)), s1, (t, Read(Keep)), s2, [(t, Read(Load))]);
    assert [(t, Read(Load))] == [(t, Read(Load))] + [];
    OneMove(s2, s1, t, Read(Load), []);
  }

  /** A read of all that was left over frees it and leaves nothing. */
  lemma {:induction false} ReadToEnd(st: State, t: nat, x: nat)
    requires Inv(st) && t < |st.pcs| && st.pcs[t].Holding? && PcOk(st.socks, st.pcs[t])
    requires st.socks[st.pcs[t].s].lastdata == Some(x)
    ensures Run(st, [(t, Read(Load)), (t, Read(Erase))] + [(t, Read(FreeBuffer))])
      == Next(DataStep(st, t, st.pcs[t], None).(read := st.read + [x]))
  {
    var s, c := st.pcs[t].s, st.pcs[t].c;
    var s1 := Moved(st, t, Reading(s, c, Copying(x)));
    var s2 := DataStep(st, t, Reading(s, c, Dropping(x)), None);
    TwoMoves(st, (t, Read(Load)), s1, (t, Read(Erase)), s2, [(t, Read(FreeBuffer))]);
    assert [(t, Read(FreeBuffer))] == [(t, Read(FreeBuffer))] + [];
    OneMove(s2, DataStep(st, t, st.pcs[t], None).(read := st.read + [x]), t, Read(FreeBuffer), []);
  }

  /** A read that gets nothing ends as it began. */
  lemma {:induction false} ReadMisses(st: State, t: nat)
    requires Inv(st) && t < |st.pcs| && st.pcs[t].Holding? && PcOk(st.socks, st.pcs[t])
    requires st.socks[st.pcs[t].s].lastdata == None
    ensures Run(st, [(t, Read(Load)), (t, Read(Miss))] + []) == Next(st)
  {
    var s, c := st.pcs[t].s, st.pcs[t].c;
    assert st.pcs[t := st.pcs[t]] == st.pcs;
    TwoMoves(st, (t, Read(Load)), Moved(st, t, Reading(s, c, Waiting)), (t, Read(Miss)), st, []);
  }

  // ----- the scan of alloc_socket -----

  /** What activity t finds in the slots it looks at while it scans. */
  ghost function Looks(st: State, moves: seq<Move>, t: nat): seq<Sock>
    requires Inv(st) && t < |st.pcs|
    decreases |moves|
  {
    if moves == [] then []
    else
      var r, pc := Stepped(st, moves[0]), st.pcs[t];
      (if moves[0] == (t, Scan) && pc.Scanning? && pc.i < |st.socks| then [st.socks[pc.i]] else [])
      + (if r.Next? then Looks(r.st, moves[1..], t) else [])
  }

  predicate NoneFree(socks: seq<Sock>) {
    forall i :: 0 <= i < |socks| ==> !Free(socks[i])
  }

  /** Where a scan that started at slot i has got to with what it found: on to the next, into a free one, or through. */
  predicate ScannedTo(slots: nat, c: Conn, i: nat, found: seq<Sock>, pc: Pc) {
    if pc.Scanning? then pc.c == c && pc.i == i + |found| && NoneFree(found)
    else if pc.Created? then
      pc.c == c && pc.s + 1 == i + |found| && found != [] && Free(found[|found| - 1]) && NoneFree(found[..|found| - 1])
    else pc == Freeing(c.tcp, Parts(Some(c), None)) && i + |found| == slots && NoneFree(found)
  }

  lemma {:induction false} ScannedCons(slots: nat, c: Conn, i: nat, k: Sock, found: seq<Sock>, pc: Pc)
    requires !Free(k) && ScannedTo(slots, c, i + 1, found, pc)
    ensures ScannedTo(slots, c, i, [k] + found, pc)
  {
    var all := [k] + found;
    forall j | 0 < j < |all| ensures all[j] == found[j - 1] {}
    if pc.Created? { assert all[..|all| - 1] == [k] + found[..|found| - 1]; }
  }

  /** An activity past its scan that makes no move but Scan stays where it is. */
  lemma {:induction false} PastScan(st: State, moves: seq<Move>, t: nat)
    requires Inv(st) && t < |st.pcs| && (st.pcs[t].Created? || st.pcs[t].Freeing?)
    requires forall k :: 0 <= k < |moves| && moves[k].0 == t ==> moves[k].1 == Scan
    ensures Looks(st, moves, t) == [] && (Run(st, moves).Next? ==> Run(st, moves).st.pcs[t] == st.pcs[t])
    decreases |moves|
  {
    if moves != [] {
      var r := Stepped(st, moves[0]);
      if r.Next? {
        assert r.st.pcs[t] == st.pcs[t];
        PastScan(r.st, moves[1..], t);
      }
    }
  }

  /**
   Whatever others do meanwhile, a scan takes the first slot it finds free, and gives up only after it has found every
   slot from where it started not free.
   */
  lemma {:induction false} ScanFinds(st: State, moves: seq<Move>, t: nat)
    requires Inv(st) && t < |st.pcs| && st.pcs[t].Scanning? && st.pcs[t].i <= |st.socks|
    requires forall k :: 0 <= k < |moves| && moves[k].0 == t ==> moves[k].1 == Scan
    ensures Run(st, moves).Next? ==>
      ScannedTo(|st.socks|, st.pcs[t].c, st.pcs[t].i, Looks(st, moves, t), Run(st, moves).st.pcs[t])
    decreases |moves|, 1
  {
    if moves != [] {
      if moves[0] == (t, Scan) {
        OwnLook(st, moves, t);
      } else {
        assert moves[0].0 != t;
        OtherMove(st, moves, t);
        if Stepped(st, moves[0]).Next? { ScanFinds(Stepped(st, moves[0]).st, moves[1..], t); }
      }
    }
  }

  lemma {:induction false} OtherMove(st: State, moves: seq<Move>, t: nat)
    requires Inv(st) && t < |st.pcs| && moves != [] && moves[0].0 != t
    ensures var r := Stepped(st, moves[0]);
      if r.Next? then
        && r.st.pcs[t] == st.pcs[t] && |r.st.socks| == |st.socks| && Run(st, moves) == Run(r.st, moves[1..])
        && Looks(st, moves, t) == Looks(r.st, moves[1..], t)
      else !Run(st, moves).Next?
  {
  }

  lemma {:induction false} ScanMove(st: State, t: nat)
    requires Inv(st) && t < |st.pcs| && st.pcs[t].Scanning?
    ensures Stepped(st, (t, Scan)) == Next(ScanStep(st, t, st.pcs[t].c, st.pcs[t].i))
  {
  }

  lemma {:induction false} OwnLook(st: State, moves: seq<Move>, t: nat)
    requires Inv(st) && t < |st.pcs| && st.pcs[t].Scanning? && st.pcs[t].i <= |st.socks|
    requires forall k :: 0 <= k < |moves| && moves[k].0 == t ==> moves[k].1 == Scan
    requires moves != [] && moves[0] == (t, Scan)
    ensures Run(st, moves).Next? ==>
      ScannedTo(|st.socks|, st.pcs[t].c, st.pcs[t].i, Looks(st, moves, t), Run(st, moves).st.pcs[t])
    decreases |moves|, 0
  {
    var st', pc, rest := ScanStep(st, t, st.pcs[t].c, st.pcs[t].i), st.pcs[t], moves[1..];
    ScanMove(st, t);
    if st'.pcs[t].Scanning? { ScanFinds(st', rest, t); } else { PastScan(st', rest, t); }
    if Run(st', rest).Next? { LookFinds(st, st', t, Looks(st', rest, t), Run(st', rest).st.pcs[t]); }
  }

  lemma {:induction false} LookFinds(st: State, st': State, t: nat, found: seq<Sock>, pc: Pc)
    requires t < |st.pcs| && st.pcs[t].Scanning? && st' == ScanStep(st, t, st.pcs[t].c, st.pcs[t].i)
    requires st.pcs[t].i <= |st.socks|
    requires if st'.pcs[t].Scanning? then ScannedTo(|st.socks|, st.pcs[t].c, st.pcs[t].i + 1, found, pc)
             else found == [] && pc == st'.pcs[t]
    ensures var look := if st.pcs[t].i < |st.socks| then [st.socks[st.pcs[t].i]] else [];
      ScannedTo(|st.socks|, st.pcs[t].c, st.pcs[t].i, look + found, pc)
  {
    if st'.pcs[t].Scanning? {
      ScannedCons(|st.socks|, st.pcs[t].c, st.pcs[t].i, st.socks[st.pcs[t].i], found, pc);
    }
  }

  /** n moves of a scan. */
  function Scans(t: nat, n: nat): seq<Move> {
    seq(n, _ => (t, Scan))
  }

  /** Left alone, a scan takes the lowest free slot, s, or gives up if and only if there is none. */
  lemma {:induction false} ScanAlone(st: State, t: nat, s: nat)
    requires Inv(st) && t < |st.pcs| && st.pcs[t].Scanning? && st.pcs[t].i <= s <= |st.socks|
    requires (forall k :: st.pcs[t].i <= k < s ==> !Free(st.socks[k])) && (s < |st.socks| ==> Free(st.socks[s]))
    ensures var c := st.pcs[t].c;
      Run(st, Scans(t, s - st.pcs[t].i + 1)) == Next(
        if s < |st.socks|
        then st.(pcs := st.pcs[t := Created(s, c)], socks := st.socks[s := Allocated(st.socks[s], c)])
        else st.(pcs := st.pcs[t := Freeing(c.tcp, Parts(Some(c), None))]))
    decreases s - st.pcs[t].i
  {
    var pc, n := st.pcs[t], s - st.pcs[t].i;
    var r := Stepped(st, (t, Scan));
    assert Scans(t, n + 1)[1..] == Scans(t, n);
    if n == 0 {
      assert Scans(t, 0) == [];
    } else {
      ScanAlone(r.st, t, s);
      assert r.st.pcs[t := Created(s, pc.c)] == st.pcs[t := Created(s, pc.c)];
      assert r.st.pcs[t := Freeing(pc.c.tcp, Parts(Some(pc.c), None))]
        == st.pcs[t := Freeing(pc.c.tcp, Parts(Some(pc.c), None))];
    }
  }

  /** lwip_socket: a netconn of the kind asked for, in the lowest free slot, or freed again if there is none. */
  lemma {:induction false} SocketOpens(st: State, t: nat, tcp: bool, s: nat)
    requires Inv(st) && t < |st.pcs| && st.pcs[t].Idle? && s <= |st.socks|
    requires (forall k :: 0 <= k < s ==> !Free(st.socks[k])) && (s < |st.socks| ==> Free(st.socks[s]))
    ensures var r, c := Run(st, [(t, Make(tcp))] + Scans(t, s + 1)), Conn(st.next, tcp);
      && r.Next? && |r.st.socks| == |st.socks| && r.st.next == st.next + 1
      && r.st.pcs[t] == (if s < |st.socks| then Created(s, c) else Freeing(tcp, Parts(Some(c), None)))
      && r.st.socks == if s < |st.socks| then st.socks[s := Allocated(st.socks[s], c)] else st.socks
  {
    var st1 := Moved(st, t, Scanning(Conn(st.next, tcp), 0)).(next := st.next + 1);
    OneMove(st, st1, t, Make(tcp), Scans(t, s + 1));
    ScanAlone(st1, t, s);
  }

  // ----- what the invariant means -----

  /** A netconn in use is in its slot and nowhere else: nobody is freeing it and it has not been freed. */
  lemma {:induction false} NoUseAfterFree(st: State, t: nat)
    requires Inv(st) && t < |st.pcs|
    requires st.pcs[t].Created? || st.pcs[t].Holding? || st.pcs[t].Reading? || st.pcs[t].Closing?
    ensures var s, c := st.pcs[t].s, st.pcs[t].c;
      && s < |st.socks| && st.socks[s].conn == Some(c) && st.socks[s].used == Users(st, s)
      && (forall u :: 0 <= u < |st.pcs| ==> InHand(c.id)(st.pcs[u]) == 0)
      && (forall i :: 0 <= i < |st.deleted| ==> !Has(st.deleted[i].1.conn, c.id))
  {
    assert PcOk(st.socks, st.pcs[t]);
    var s, id := st.pcs[t].s, st.pcs[t].c.id;
    assert SlotOk(st, s);
    SumAtLeast(st.socks, InSlot(id), s);
    assert Owners(st, id) <= 1;
    forall u | 0 <= u < |st.pcs| ensures InHand(id)(st.pcs[u]) == 0 { SumAtLeast(st.pcs, InHand(id), u); }
    forall i | 0 <= i < |st.deleted| ensures !Has(st.deleted[i].1.conn, id) {
      SumAtLeast(st.deleted, Gone(id), i);
      assert Gone(id)(st.deleted[i]) == 0;
    }
  }

  /** Left alone, an activity keeps its netconn in its slot, whatever the others do: the slot is not given away. */
  lemma {:induction false} HeldStays(st: State, moves: seq<Move>, t: nat)
    requires Inv(st) && t < |st.pcs| && (st.pcs[t].Holding? || st.pcs[t].Reading?)
    requires forall i :: 0 <= i < |moves| ==> moves[i].0 != t
    ensures Run(st, moves).Next? ==>
      Run(st, moves).st.pcs[t] == st.pcs[t] && Run(st, moves).st.socks[st.pcs[t].s].conn == Some(st.pcs[t].c)
    decreases |moves|
  {
    assert PcOk(st.socks, st.pcs[t]);
    if moves != [] {
      var r := Stepped(st, moves[0]);
      if r.Next? {
        assert r.st.pcs[t] == st.pcs[t];
        HeldStays(r.st, moves[1..], t);
      }
    }
  }

  /** No netconn is freed twice. */
  lemma {:induction false} FreedOnce(st: State, i: nat, j: nat, id: nat)
    requires Inv(st) && i < j < |st.deleted| && Has(st.deleted[i].1.conn, id)
    ensures !Has(st.deleted[j].1.conn, id)
  {
    assert Owners(st, id) <= 1;
    SumTwo(st.deleted, Gone(id), i, j);
    assert Gone(id)(st.deleted[j]) == 0;
  }

  /** The hand-over for freeing happens in the step that drops the last use of a closed slot, and in no other. */
  lemma {:induction false} LastUserFrees(st: State, t: nat, a: Action)
    requires Inv(st) && t < |st.pcs| && (a.Drop? || a.Release?) && PcOk(st.socks, st.pcs[t]) && Step(st, t, a).Next?
    ensures var s, st' := st.pcs[t].s, Step(st, t, a).st;
      && s < |st.socks| && 0 < Users(st, s)
      && (st'.pcs[t].Freeing? <==> Users(st, s) == 1 && (a.Release? || st.socks[s].pending != 0))
      && (st'.pcs[t].Freeing? ==> Users(st', s) == 0 && Free(st'.socks[s]) && st'.socks[s].lastdata == None)
      && (st'.pcs[t].Freeing? ==> st'.pcs[t].parts == Parts(st.socks[s].conn, st.socks[s].lastdata))
      && (st'.pcs[t].Freeing? ==> st.socks[s].conn.Some?)
      && (!st'.pcs[t].Freeing? ==> st'.pcs[t].Idle? && st'.socks[s].conn == st.socks[s].conn)
  {
    StepKeepsInv(st, t, a);
    var s := st.pcs[t].s;
    Counted(st, t, s);
    assert SlotOk(st, s);
    assert SlotOk(Step(st, t, a).st, s);
    assert PcOk(Step(st, t, a).st.socks, Step(st, t, a).st.pcs[t]);
  }

  /**
   Once a close is noted the slot only drains: no step adds a use, and the note stays until the netconn is handed
   over.
   */
  lemma {:induction false} ClosedDrains(st: State, t: nat, a: Action, s: nat)
    requires Inv(st) && t < |st.pcs| && s < |st.socks| && st.socks[s].conn.Some? && st.socks[s].pending != 0
    requires PcOk(st.socks, st.pcs[t]) && Step(st, t, a).Next?
    ensures var st' := Step(st, t, a).st;
      && |st'.socks| == |st.socks| && st'.socks[s].used <= st.socks[s].used
      && if 0 < st'.socks[s].used then st'.socks[s].conn == st.socks[s].conn && st'.socks[s].pending != 0
         else Free(st'.socks[s]) && st'.pcs[t].Freeing? && st'.pcs[t].parts.conn == st.socks[s].conn
  {
    assert SlotOk(st, s);
    StepKeepsInv(st, t, a);
    assert SlotOk(Step(st, t, a).st, s);
  }

  /** When nobody is at work, no close is outstanding and every netconn is in an open slot or was freed. */
  lemma {:induction false} Quiescent(st: State, s: nat)
    requires Inv(st) && s < |st.socks| && forall t :: 0 <= t < |st.pcs| ==> st.pcs[t].Idle?
    ensures st.socks[s].used == 0 && (st.socks[s].conn.Some? ==> st.socks[s].pending == 0)
    ensures forall id: nat :: id < st.next ==> Sum(st.socks, InSlot(id)) + Sum(st.deleted, Gone(id)) == 1
  {
    assert SlotOk(st, s);
    SumZero(st.pcs, UseOf(s));
    forall id: nat | id < st.next ensures Sum(st.socks, InSlot(id)) + Sum(st.deleted, Gone(id)) == 1 {
      assert Owners(st, id) == 1;
      SumZero(st.pcs, InHand(id));
    }
  }
}
