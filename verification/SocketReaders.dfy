/**
 Reads do not lock the slot between loading, storing and clearing lastdata.  With one reader of a slot at a time every
 buffer has one owner, whatever else the threads do.  What alloc_socket clears outside the lock may be the last pointer.
 */
module SocketReaders {
  import opened Options
  import opened SocketTable
  import opened SocketRuns
  import opened SocketData
  import opened Sums

  // ----- one owner -----

  /** The activity alone owns the buffer, to store or to free it. */
  predicate OwnsBuffer(pc: Pc, id: nat) {
    || (pc.Freeing? && pc.parts.lastdata == Some(id))
    || (pc.Reading? && (pc.stage.Received? || pc.stage.Dropping?) && pc.stage.x == id)
    || (pc.Reading? && pc.stage.Splitting? && pc.stage.rest == id)
  }

  function Owner(id: nat): Pc -> nat {
    (pc: Pc) => if OwnsBuffer(pc, id) then 1 else 0
  }

  /** In how many places a buffer is: a slot, an activity that owns it, or freed. */
  function Places(st: State, id: nat): nat {
    Tally(st, InSock(id), Owner(id), id)
  }

  ghost predicate DataInv(st: State) {
    forall id: nat :: Places(st, id) == if id < st.nextData then 1 else 0
  }

  // ----- at most one reader of a slot -----

  /** Does the activity read a slot, or clear it after creating it? */
  predicate Busy(pc: Pc) {
    pc.Created? || pc.Reading?
  }

  predicate Clash(p: Pc, q: Pc) {
    Busy(p) && Busy(q) && p.s == q.s
  }

  ghost predicate Single(pcs: seq<Pc>) {
    forall t, u :: 0 <= t < u < |pcs| ==> !Clash(pcs[t], pcs[u])
  }

  ghost predicate OneReader(st: State, moves: seq<Move>)
    requires Inv(st)
    decreases |moves|
  {
    Single(st.pcs) &&
    (moves != [] && Stepped(st, moves[0]).Next? ==> OneReader(Stepped(st, moves[0]).st, moves[1..]))
  }

  /** A reader finds in the slot what it last saw or put there. */
  ghost predicate Attached(socks: seq<Sock>, pc: Pc) {
    Busy(pc) ==>
      && pc.s < |socks|
      && socks[pc.s].lastdata ==
         if pc.Reading? && (pc.stage.Copying? || pc.stage.Splitting?) then Some(pc.stage.x) else None
  }

  ghost predicate Settled(st: State) {
    forall t :: 0 <= t < |st.pcs| ==> Attached(st.socks, st.pcs[t])
  }

  /** The move leaves what another busy activity finds in its slot. */
  lemma {:induction false} OthersKept(st: State, t: nat, a: Action, u: nat)
    requires Inv(st) && Single(st.pcs) && t < |st.pcs| && u < |st.pcs| && t != u && Busy(st.pcs[u])
    requires PcOk(st.socks, st.pcs[t]) && PcOk(st.socks, st.pcs[u]) && Step(st, t, a).Next?
    ensures var st' := Step(st, t, a).st;
      && |st'.pcs| == |st.pcs| && |st'.socks| == |st.socks| && st'.pcs[u] == st.pcs[u]
      && st'.socks[st.pcs[u].s].lastdata == st.socks[st.pcs[u].s].lastdata
  {
    var s := st.pcs[u].s;
    assert !Clash(st.pcs[t], st.pcs[u]);
    assert SlotOk(st, s);
    if (a.Drop? || a.Release?) && st.pcs[t].s == s && st.socks[s].used == 1 {
      Counted(st, t, s);
      OnlyUser(st.pcs, t, s, u);
    }
  }

  lemma {:induction false} OwnAttached(st: State, t: nat, a: Action)
    requires Inv(st) && t < |st.pcs| && PcOk(st.socks, st.pcs[t]) && Attached(st.socks, st.pcs[t])
    requires Step(st, t, a).Next?
    ensures var st' := Step(st, t, a).st; |st'.pcs| == |st.pcs| && Attached(st'.socks, st'.pcs[t])
  {
    if a.Scan? && st.pcs[t].i < |st.socks| { assert SlotOk(st, st.pcs[t].i); }
  }

  lemma {:induction false} StepSettled(st: State, t: nat, a: Action)
    requires Inv(st) && Single(st.pcs) && Settled(st) && t < |st.pcs| && PcOk(st.socks, st.pcs[t])
    requires Step(st, t, a).Next?
    ensures Settled(Step(st, t, a).st)
  {
    var st' := Step(st, t, a).st;
    OwnAttached(st, t, a);
    forall u | 0 <= u < |st'.pcs| ensures Attached(st'.socks, st'.pcs[u]) {
      if u != t {
        assert PcOk(st.socks, st.pcs[u]) && Attached(st.socks, st.pcs[u]);
        if Busy(st.pcs[u]) { OthersKept(st, t, a, u); }
      }
    }
  }

  lemma {:induction false} ReadPlaces(st: State, t: nat, r: ReadAction, id: nat)
    requires Inv(st) && t < |st.pcs| && PcOk(st.socks, st.pcs[t]) && Attached(st.socks, st.pcs[t])
    requires Step(st, t, Read(r)).Next?
    ensures Places(Step(st, t, Read(r)).st, id)
      == Places(st, id) + if (r.Receive? || r.Split?) && id == st.nextData then 1 else 0
  {
    StepTally(st, t, Read(r), InSock(id), Owner(id), id);
  }

  lemma {:induction false} OtherPlaces(st: State, t: nat, a: Action, id: nat)
    requires Inv(st) && t < |st.pcs| && PcOk(st.socks, st.pcs[t]) && Attached(st.socks, st.pcs[t])
    requires !a.Read? && Step(st, t, a).Next?
    ensures Places(Step(st, t, a).st, id) == Places(st, id)
  {
    StepTally(st, t, a, InSock(id), Owner(id), id);
    if a.Scan? && SlotOf(st, t, a) < |st.socks| { assert SlotOk(st, st.pcs[t].i); }
  }

  /** A step of an activity that finds what it last saw leaves every buffer in one place. */
  lemma {:induction false} AttachedPlaces(st: State, t: nat, a: Action, id: nat)
    requires Inv(st) && t < |st.pcs| && PcOk(st.socks, st.pcs[t]) && Attached(st.socks, st.pcs[t])
    requires Step(st, t, a).Next?
    ensures Places(Step(st, t, a).st, id)
      == Places(st, id) + if a.Read? && (a.r.Receive? || a.r.Split?) && id == st.nextData then 1 else 0
  {
    if a.Read? {
      ReadPlaces(st, t, a.r, id);
    } else {
      OtherPlaces(st, t, a, id);
    }
  }

  lemma {:induction false} StepKeepsData(st: State, t: nat, a: Action)
    requires Inv(st) && DataInv(st) && t < |st.pcs| && PcOk(st.socks, st.pcs[t]) && Attached(st.socks, st.pcs[t])
    requires Step(st, t, a).Next?
    ensures DataInv(Step(st, t, a).st)
  {
    var st' := Step(st, t, a).st;
    forall id: nat ensures Places(st', id) == if id < st'.nextData then 1 else 0 {
      assert Places(st, id) == if id < st.nextData then 1 else 0;
      AttachedPlaces(st, t, a, id);
    }
  }

  /** Two activities of which one is freeing the buffer and both have it: no place is left for the other. */
  lemma {:induction false} FreerAlone(st: State, t: nat, u: nat, id: nat)
    requires DataInv(st) && Settled(st) && Single(st.pcs) && t < |st.pcs| && u < |st.pcs| && t != u
    requires Frees(st.pcs[t], id)
    ensures !Frees(st.pcs[u], id) && !(st.pcs[u].Reading? && st.pcs[u].stage == Copying(id))
  {
    var p, q := st.pcs[t], st.pcs[u];
    assert Attached(st.socks, p) && Attached(st.socks, q) && Places(st, id) <= 1;
    if Frees(q, id) || (q.Reading? && q.stage == Copying(id)) {
      assert OwnsBuffer(p, id) || (Busy(p) && st.socks[p.s].lastdata == Some(id));
      assert OwnsBuffer(q, id) || (Busy(q) && st.socks[q.s].lastdata == Some(id));
      OneOfTwo(st, t, u, id);
    }
  }

  /** A buffer in one place: not two owners, nor an owner and a slot, nor two slots. */
  lemma {:induction false} OneOfTwo(st: State, t: nat, u: nat, id: nat)
    requires Places(st, id) <= 1 && t < |st.pcs| && u < |st.pcs| && t != u
    requires PcTyped(st.socks, st.pcs[t]) && PcTyped(st.socks, st.pcs[u])
    requires OwnsBuffer(st.pcs[t], id) || (Busy(st.pcs[t]) && st.socks[st.pcs[t].s].lastdata == Some(id))
    requires OwnsBuffer(st.pcs[u], id) || (Busy(st.pcs[u]) && st.socks[st.pcs[u].s].lastdata == Some(id))
    ensures Clash(st.pcs[t], st.pcs[u]) && Clash(st.pcs[u], st.pcs[t])
  {
    var p, q := st.pcs[t], st.pcs[u];
    SumAtLeast(st.pcs, Owner(id), t);
    SumAtLeast(st.pcs, Owner(id), u);
    if OwnsBuffer(p, id) {
      if OwnsBuffer(q, id) {
        SumTwo(st.pcs, Owner(id), if t < u then t else u, if t < u then u else t);
      } else {
        SumAtLeast(st.socks, InSock(id), q.s);
      }
    } else {
      SumAtLeast(st.socks, InSock(id), p.s);
      if !OwnsBuffer(q, id) && p.s != q.s {
        SumTwo(st.socks, InSock(id), if p.s < q.s then p.s else q.s, if p.s < q.s then q.s else p.s);
      }
    }
  }

  /** With one reader per slot, a buffer in one place is freed at most once and not lost. */
  lemma {:induction false} InOnePlace(st: State)
    requires DataInv(st) && Settled(st) && Single(st.pcs)
    ensures FreedAtMostOnce(st) && forall id: nat :: !Lost(st, id)
  {
    forall id: nat ensures Committed(st, id) <= 1 {
      FreedBefore(st, id);
      forall t, u | 0 <= t < u < |st.pcs| && Freer(id)(st.pcs[t]) != 0 ensures Freer(id)(st.pcs[u]) == 0 {
        FreerAlone(st, t, u, id);
      }
      SumAtMostOne(st.pcs, Freer(id));
      SumZero(st.socks, NoSlot());
      assert Places(st, id) <= 1;
    }
    forall id: nat ensures !Lost(st, id) {
      assert Places(st, id) == if id < st.nextData then 1 else 0;
      SumAtMost(st.pcs, Owner(id), Referrer(id));
    }
  }

  /** Nobody is freeing what was freed before. */
  lemma {:induction false} FreedBefore(st: State, id: nat)
    requires DataInv(st) && Settled(st)
    ensures 0 < FreeCount(st, id) ==> Sum(st.pcs, Freer(id)) == 0
  {
    assert Places(st, id) <= 1;
    if 0 < FreeCount(st, id) {
      forall t | 0 <= t < |st.pcs| ensures Freer(id)(st.pcs[t]) == 0 {
        assert Attached(st.socks, st.pcs[t]);
        SumAtLeast(st.pcs, Owner(id), t);
        if Busy(st.pcs[t]) { SumAtLeast(st.socks, InSock(id), st.pcs[t].s); }
      }
      SumZero(st.pcs, Freer(id));
    }
  }

  /**
   With at most one reader of a slot at a time every buffer is in one place: whatever else the threads do, none is lost
   and each is freed once, by its reader or with its netconn.
   */
  lemma {:induction false} OneReaderSafe(st: State, moves: seq<Move>)
    requires Inv(st) && DataInv(st) && Settled(st) && OneReader(st, moves)
    ensures var r := Run(st, moves);
      r.Next? ==> DataInv(r.st) && Settled(r.st) && FreedAtMostOnce(r.st) && forall id: nat :: !Lost(r.st, id)
    decreases |moves|
  {
    if moves == [] {
      InOnePlace(st);
    } else {
      var r := Stepped(st, moves[0]);
      if Makes(st, moves[0]) {
        StepSettled(st, moves[0].0, moves[0].1);
        StepKeepsData(st, moves[0].0, moves[0].1);
      }
      if r.Next? { OneReaderSafe(r.st, moves[1..]); }
    }
  }

  lemma {:induction false} InitSettled(slots: nat, activities: nat)
    ensures DataInv(Init(slots, activities)) && Settled(Init(slots, activities))
  {
    var st := Init(slots, activities);
    forall id: nat ensures Places(st, id) == 0 {
      SumZero(st.socks, InSock(id));
      SumZero(st.pcs, Owner(id));
    }
  }

  /** A buffer a settled reader copies from is in its slot, not freed and not being freed. */
  lemma {:induction false} CopyingNotFreed(st: State, t: nat)
    requires DataInv(st) && Settled(st) && Single(st.pcs)
    requires t < |st.pcs| && st.pcs[t].Reading? && st.pcs[t].stage.Copying?
    ensures var x := st.pcs[t].stage.x;
      && Committed(st, x) == 0 && st.pcs[t].s < |st.socks| && st.socks[st.pcs[t].s].lastdata == Some(x)
  {
    var x := st.pcs[t].stage.x;
    assert Attached(st.socks, st.pcs[t]);
    SumAtLeast(st.socks, InSock(x), st.pcs[t].s);
    assert Places(st, x) <= 1;
    forall u | 0 <= u < |st.pcs| ensures Freer(x)(st.pcs[u]) == 0 {
      if Frees(st.pcs[u], x) { FreerAlone(st, u, t, x); }
    }
    SumZero(st.pcs, Freer(x));
    SumZero(st.socks, NoSlot());
  }

  // ----- what alloc_socket clears -----

  /** A slot just allocated has nothing left over. */
  lemma {:induction false} CreatedClean(st: State, t: nat)
    requires Inv(st) && t < |st.pcs| && st.pcs[t].Scanning?
    ensures var st' := ScanStep(st, t, st.pcs[t].c, st.pcs[t].i);
      st'.pcs[t].Created? ==> st'.pcs[t].s < |st'.socks| && st'.socks[st'.pcs[t].s].lastdata == None
  {
    if st.pcs[t].i < |st.socks| { assert SlotOk(st, st.pcs[t].i); }
  }

  /** The move writes lastdata of slot s. */
  predicate Writes(st: State, m: Move, s: nat) {
    && Makes(st, m) && Busy(st.pcs[m.0]) && st.pcs[m.0].s == s
    && (m.1.Clear? || (m.1.Read? && (m.1.r.Store? || m.1.r.Keep? || m.1.r.Erase?)))
  }

  /** After the moves, is the last write to slot s a store?  left says whether it was before. */
  ghost predicate LeftBehind(st: State, moves: seq<Move>, s: nat, left: bool)
    requires Inv(st)
    decreases |moves|
  {
    if moves == [] then left
    else
      var r := Stepped(st, moves[0]);
      var now := if Writes(st, moves[0], s) then moves[0].1.Read? && !moves[0].1.r.Erase? else left;
      if r.Next? then LeftBehind(r.st, moves[1..], s, now) else now
  }

  /** While somebody else is about to clear slot s, only such a move changes what is left over there. */
  lemma {:induction false} OnlyWrites(st: State, m: Move, t: nat)
    requires Inv(st) && t < |st.pcs| && st.pcs[t].Created? && PcOk(st.socks, st.pcs[t]) && m.0 != t
    requires Stepped(st, m).Next?
    ensures var st', s := Stepped(st, m).st, st.pcs[t].s;
      && st'.pcs[t] == st.pcs[t] && s < |st'.socks|
      && (st'.socks[s].lastdata.Some? <==>
          if Writes(st, m, s) then m.1.Read? && !m.1.r.Erase? else st.socks[s].lastdata.Some?)
  {
    if Makes(st, m) {
      var s := st.pcs[t].s;
      assert SlotOk(st, s);
      if (m.1.Drop? || m.1.Release?) && st.pcs[m.0].s == s && st.socks[s].used == 1 {
        Counted(st, m.0, s);
        OnlyUser(st.pcs, m.0, s, t);
      }
    }
  }

  /** Clearing the slot loses its buffer if and only if the pointer in the slot is the only one. */
  lemma {:induction false} ClearLoses(st: State, t: nat)
    requires Inv(st) && Unseen(st) && t < |st.pcs| && st.pcs[t].Created? && PcOk(st.socks, st.pcs[t])
    ensures Step(st, t, Clear).Next?
    ensures (exists id: nat :: Lost(Step(st, t, Clear).st, id) && !Lost(st, id)) <==> OnlyPointer(st, st.pcs[t].s)
  {
    var s, st' := st.pcs[t].s, Step(st, t, Clear).st;
    forall id: nat ensures Lost(st', id) && !Lost(st, id) <==> Loses(st, t, Clear, id) {
      StepLosesIff(st, t, Clear, id);
      if Loses(st, t, Clear, id) { SlotTraces(st, s, id); }
    }
    if st.socks[s].lastdata.Some? {
      OnlyPointerIff(st, s);
      if OnlyPointer(st, s) {
        assert Loses(st, t, Clear, st.socks[s].lastdata.value);
        assert Lost(st', st.socks[s].lastdata.value);
      }
    }
  }

  /**
   Clearing lastdata outside the lock loses a buffer if and only if the last thread to write it since the slot was
   allocated stored one there, and it neither has a pointer to it any more nor has any other thread.
   */
  lemma {:induction false} ClearLosesIff(st: State, moves: seq<Move>, t: nat)
    requires Inv(st) && Unseen(st) && t < |st.pcs| && st.pcs[t].Created? && PcOk(st.socks, st.pcs[t])
    requires (forall i :: 0 <= i < |moves| ==> moves[i].0 != t) && Run(st, moves).Next?
    ensures var st', s := Run(st, moves).st, st.pcs[t].s;
      && st'.pcs[t] == st.pcs[t] && Step(st', t, Clear).Next?
      && (st'.socks[s].lastdata.Some? <==> LeftBehind(st, moves, s, st.socks[s].lastdata.Some?))
      && ((exists id: nat :: Lost(Step(st', t, Clear).st, id) && !Lost(st', id)) <==>
          LeftBehind(st, moves, s, st.socks[s].lastdata.Some?) && OnlyPointer(st', s))
    decreases |moves|
  {
    if moves == [] {
      ClearLoses(st, t);
    } else {
      OnlyWrites(st, moves[0], t);
      var st1 := Stepped(st, moves[0]).st;
      assert PcOk(st1.socks, st1.pcs[t]);
      if Makes(st, moves[0]) { StepUnseen(st, moves[0].0, moves[0].1); }
      ClearLosesIff(st1, moves[1..], t);
    }
  }
}
