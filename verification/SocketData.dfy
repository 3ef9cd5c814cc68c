/**
 What becomes of the buffers reads receive, over every interleaving: when each is freed at most once, and when one is
 lost.
 */
module SocketData {
  import opened Options
  import opened SocketTable
  import opened SocketRuns
  import opened Sums

  // ----- counting -----

  function InSock(id: nat): Sock -> nat {
    (k: Sock) => if k.lastdata == Some(id) then 1 else 0
  }

  /** The activity is freeing the buffer. */
  predicate Frees(pc: Pc, id: nat) {
    || (pc.Freeing? && pc.parts.lastdata == Some(id))
    || (pc.Reading? && (pc.stage.Dropping? || pc.stage.Splitting?) && pc.stage.x == id)
  }

  function Freer(id: nat): Pc -> nat {
    (pc: Pc) => if Frees(pc, id) then 1 else 0
  }

  /** The activity has a pointer to the buffer and is not freeing it. */
  predicate Points(pc: Pc, id: nat) {
    && pc.Reading?
    && (((pc.stage.Received? || pc.stage.Copying?) && pc.stage.x == id) || (pc.stage.Splitting? && pc.stage.rest == id))
  }

  predicate Refers(pc: Pc, id: nat) {
    Frees(pc, id) || Points(pc, id)
  }

  function Referrer(id: nat): Pc -> nat {
    (pc: Pc) => (if Frees(pc, id) then 1 else 0) + if Points(pc, id) then 1 else 0
  }

  function Freed(id: nat): ((bool, Parts)) -> nat {
    (d: (bool, Parts)) => if d.1.lastdata == Some(id) then 1 else 0
  }

  function Equals(id: nat): nat -> nat {
    (x: nat) => if x == id then 1 else 0
  }

  /** How often a buffer was freed, with its netconn or by a read. */
  function FreeCount(st: State, id: nat): nat {
    Sum(st.deleted, Freed(id)) + Sum(st.read, Equals(id))
  }

  /** The times a buffer was freed, and slots and activities by a measure. */
  function Tally(st: State, f: Sock -> nat, g: Pc -> nat, id: nat): nat {
    Sum(st.socks, f) + Sum(st.pcs, g) + FreeCount(st, id)
  }

  function NoSlot(): Sock -> nat {
    (k: Sock) => 0
  }

  /** How often a buffer was freed or is certain to be. */
  function Committed(st: State, id: nat): nat {
    Tally(st, NoSlot(), Freer(id), id)
  }

  /** How many pointers to a buffer there are, and how often it was freed. */
  function Traces(st: State, id: nat): nat {
    Tally(st, InSock(id), Referrer(id), id)
  }

  /** Nobody is going to free a buffer twice. */
  ghost predicate FreedAtMostOnce(st: State) {
    forall id: nat :: Committed(st, id) <= 1
  }

  /** A buffer was received and not freed, but no pointer to it is left. */
  predicate Lost(st: State, id: nat) {
    id < st.nextData && Traces(st, id) == 0
  }

  /** Of a buffer not received yet there is no trace. */
  ghost predicate Unseen(st: State) {
    forall id: nat :: st.nextData <= id ==> Traces(st, id) == 0
  }

  // ----- one step -----

  /** The slot a step may change; the number of slots if it changes none. */
  function SlotOf(st: State, t: nat, a: Action): nat
    requires t < |st.pcs|
  {
    var pc := st.pcs[t];
    if a.Get? && 0 <= a.fd < |st.socks| then a.fd
    else if a.Scan? && pc.Scanning? && pc.i < |st.socks| then pc.i
    else if (pc.Created? || pc.Leaving? || pc.Holding? || pc.Reading? || pc.Closing?) && pc.s < |st.socks| then pc.s
    else |st.socks|
  }

  /** Does the step free the buffer? */
  predicate FreesNow(st: State, t: nat, a: Action, id: nat)
    requires t < |st.pcs|
  {
    ((a.Read? && (a.r.FreeBuffer? || a.r.Keep?)) || a.Delete?) && Frees(st.pcs[t], id)
  }

  predicate Logs(st: State, t: nat, a: Action)
    requires t < |st.pcs|
  {
    var pc := st.pcs[t];
    pc.Reading? && ((a == Read(FreeBuffer) && pc.stage.Dropping?) || (a == Read(Keep) && pc.stage.Splitting?))
  }

  /** Only freeing steps log anything. */
  lemma {:induction false} LogStep(st: State, t: nat, a: Action)
    requires t < |st.pcs| && PcOk(st.socks, st.pcs[t]) && Step(st, t, a).Next?
    ensures var st', pc := Step(st, t, a).st, st.pcs[t];
      && (a.Delete? ==> pc.Freeing? && st'.deleted == st.deleted + [(pc.tcp, pc.parts)])
      && (!a.Delete? ==> st'.deleted == st.deleted)
      && (Logs(st, t, a) ==> st'.read == st.read + [pc.stage.x])
      && (!Logs(st, t, a) ==> st'.read == st.read)
  {
  }

  lemma {:induction false} FreeCountStep(st: State, t: nat, a: Action, id: nat)
    requires t < |st.pcs| && PcOk(st.socks, st.pcs[t]) && Step(st, t, a).Next?
    ensures FreeCount(Step(st, t, a).st, id) == FreeCount(st, id) + if FreesNow(st, t, a, id) then 1 else 0
  {
    var pc, st' := st.pcs[t], Step(st, t, a).st;
    LogStep(st, t, a);
    if a.Delete? {
      var d := (pc.tcp, pc.parts);
      SumSnoc(st.deleted, Freed(id), d);
      assert Freed(id)(d) == if Frees(pc, id) then 1 else 0;
    } else if Logs(st, t, a) {
      SumSnoc(st.read, Equals(id), pc.stage.x);
    }
  }

  lemma {:induction false} StepShape(st: State, t: nat, a: Action)
    requires Inv(st) && t < |st.pcs| && PcOk(st.socks, st.pcs[t]) && Step(st, t, a).Next?
    ensures var st', s := Step(st, t, a).st, SlotOf(st, t, a);
      && |st'.pcs| == |st.pcs| && st'.pcs == st.pcs[t := st'.pcs[t]] && |st'.socks| == |st.socks|
      && st'.socks == if s < |st.socks| then st.socks[s := st'.socks[s]] else st.socks
  {
  }

  function At(socks: seq<Sock>, s: nat, f: Sock -> nat): nat {
    if s < |socks| then f(socks[s]) else 0
  }

  /** What a step changes in any tally comes from its slot, its activity and what it frees. */
  lemma {:induction false} StepTally(st: State, t: nat, a: Action, f: Sock -> nat, g: Pc -> nat, id: nat)
    requires Inv(st) && t < |st.pcs| && PcOk(st.socks, st.pcs[t]) && Step(st, t, a).Next?
    ensures var st', s := Step(st, t, a).st, SlotOf(st, t, a);
      && |st'.pcs| == |st.pcs|
      && Tally(st', f, g, id) + At(st.socks, s, f) + g(st.pcs[t])
         == Tally(st, f, g, id) + At(st'.socks, s, f) + g(st'.pcs[t]) + if FreesNow(st, t, a, id) then 1 else 0
  {
    var st', s := Step(st, t, a).st, SlotOf(st, t, a);
    StepShape(st, t, a);
    FreeCountStep(st, t, a, id);
    SumUpdate(st.pcs, g, t, st'.pcs[t]);
    if s < |st.socks| { SumUpdate(st.socks, f, s, st'.socks[s]); }
  }

  /**
   What the step makes certain to be freed: what a read has read to the end, or what the last user takes out of a closed
   slot.
   */
  predicate Commits(st: State, t: nat, a: Action, id: nat)
    requires t < |st.pcs|
  {
    var pc := st.pcs[t];
    if a.Read? then (a.r.Erase? || a.r.Split?) && pc.Reading? && pc.stage == Copying(id)
    else
      && (a.Release? || (a.Drop? && (pc.Leaving? || pc.Holding?) && pc.s < |st.socks| && st.socks[pc.s].pending != 0))
      && (a.Release? ==> pc.Closing?) && pc.s < |st.socks|
      && st.socks[pc.s].used == 1 && st.socks[pc.s].lastdata == Some(id)
  }

  lemma {:induction false} ReadFrees(st: State, t: nat, r: ReadAction, id: nat)
    requires t < |st.pcs| && PcOk(st.socks, st.pcs[t]) && Step(st, t, Read(r)).Next?
    ensures var st', a := Step(st, t, Read(r)).st, Read(r);
      && |st'.pcs| == |st.pcs| && (Commits(st, t, a, id) <==> Frees(st'.pcs[t], id))
      && (FreesNow(st, t, a, id) <==> Frees(st.pcs[t], id))
  {
  }

  lemma {:induction false} OtherFrees(st: State, t: nat, a: Action, id: nat)
    requires Inv(st) && t < |st.pcs| && PcOk(st.socks, st.pcs[t]) && !a.Read? && Step(st, t, a).Next?
    ensures var st' := Step(st, t, a).st;
      && |st'.pcs| == |st.pcs| && (Commits(st, t, a, id) <==> Frees(st'.pcs[t], id) && !Frees(st.pcs[t], id))
      && (FreesNow(st, t, a, id) <==> Frees(st.pcs[t], id) && !Frees(st'.pcs[t], id))
  {
  }

  lemma {:induction false} CommittedStep(st: State, t: nat, a: Action, id: nat)
    requires Inv(st) && t < |st.pcs| && PcOk(st.socks, st.pcs[t]) && Step(st, t, a).Next?
    ensures Committed(Step(st, t, a).st, id) == Committed(st, id) + if Commits(st, t, a, id) then 1 else 0
  {
    StepTally(st, t, a, NoSlot(), Freer(id), id);
    if a.Read? { ReadFrees(st, t, a.r, id); } else { OtherFrees(st, t, a, id); }
  }

  /** The step takes away a pointer to the buffer: it writes over it in the slot, or a peeking read ends. */
  predicate Removes(st: State, t: nat, a: Action, id: nat)
    requires t < |st.pcs|
  {
    var pc := st.pcs[t];
    if a.Read? && a.r.Peek? then pc.Reading? && pc.stage == Copying(id)
    else
      && (a.Clear? || (a.Read? && (a.r.Store? || a.r.Keep? || a.r.Erase?)))
      && (pc.Created? || pc.Reading?) && pc.s < |st.socks| && st.socks[pc.s].lastdata == Some(id)
  }

  /** The step makes a new pointer to the buffer. */
  predicate Adds(st: State, t: nat, a: Action, id: nat)
    requires t < |st.pcs|
  {
    var pc := st.pcs[t];
    && a.Read?
    && if a.r.Receive? || a.r.Split? then id == st.nextData
       else if a.r.Load? then pc.Holding? && pc.s < |st.socks| && st.socks[pc.s].lastdata == Some(id)
       else a.r.Store? && pc.Reading? && pc.stage == Received(id)
  }

  lemma {:induction false} WriteTraces(st: State, t: nat, r: ReadAction, id: nat)
    requires Inv(st) && t < |st.pcs| && PcOk(st.socks, st.pcs[t]) && Step(st, t, Read(r)).Next?
    requires r.Store? || r.Keep? || r.Erase?
    ensures Traces(Step(st, t, Read(r)).st, id) + (if Removes(st, t, Read(r), id) then 1 else 0)
      == Traces(st, id) + if Adds(st, t, Read(r), id) then 1 else 0
  {
    StepTally(st, t, Read(r), InSock(id), Referrer(id), id);
  }

  lemma {:induction false} LocalTraces(st: State, t: nat, r: ReadAction, id: nat)
    requires Inv(st) && t < |st.pcs| && PcOk(st.socks, st.pcs[t]) && Step(st, t, Read(r)).Next?
    requires !r.Store? && !r.Keep? && !r.Erase?
    ensures Traces(Step(st, t, Read(r)).st, id) + (if Removes(st, t, Read(r), id) then 1 else 0)
      == Traces(st, id) + if Adds(st, t, Read(r), id) then 1 else 0
  {
    StepTally(st, t, Read(r), InSock(id), Referrer(id), id);
  }

  lemma {:induction false} ReadTraces(st: State, t: nat, r: ReadAction, id: nat)
    requires Inv(st) && t < |st.pcs| && PcOk(st.socks, st.pcs[t]) && Step(st, t, Read(r)).Next?
    ensures Traces(Step(st, t, Read(r)).st, id) + (if Removes(st, t, Read(r), id) then 1 else 0)
      == Traces(st, id) + if Adds(st, t, Read(r), id) then 1 else 0
  {
    if r.Store? || r.Keep? || r.Erase? { WriteTraces(st, t, r, id); } else { LocalTraces(st, t, r, id); }
  }

  lemma {:induction false} OtherTraces(st: State, t: nat, a: Action, id: nat)
    requires Inv(st) && t < |st.pcs| && PcOk(st.socks, st.pcs[t]) && !a.Read? && Step(st, t, a).Next?
    ensures Traces(Step(st, t, a).st, id) + (if Removes(st, t, a, id) then 1 else 0) == Traces(st, id)
  {
    StepTally(st, t, a, InSock(id), Referrer(id), id);
    if a.Scan? && SlotOf(st, t, a) < |st.socks| { assert SlotOk(st, st.pcs[t].i); }
  }

  lemma {:induction false} TracesStep(st: State, t: nat, a: Action, id: nat)
    requires Inv(st) && t < |st.pcs| && PcOk(st.socks, st.pcs[t]) && Step(st, t, a).Next?
    ensures Traces(Step(st, t, a).st, id) + (if Removes(st, t, a, id) then 1 else 0)
      == Traces(st, id) + if Adds(st, t, a, id) then 1 else 0
  {
    if a.Read? {
      ReadTraces(st, t, a.r, id);
    } else {
      OtherTraces(st, t, a, id);
    }
  }

  lemma {:induction false} SlotTraces(st: State, s: nat, id: nat)
    requires s < |st.socks| && st.socks[s].lastdata == Some(id)
    ensures 1 <= Traces(st, id)
    ensures forall t :: 0 <= t < |st.pcs| && Refers(st.pcs[t], id) ==> 2 <= Traces(st, id)
  {
    SumAtLeast(st.socks, InSock(id), s);
    forall t | 0 <= t < |st.pcs| && Refers(st.pcs[t], id) ensures 2 <= Traces(st, id) {
      SumAtLeast(st.pcs, Referrer(id), t);
    }
  }

  /** The step takes away the last pointer to a buffer that was not freed. */
  predicate Loses(st: State, t: nat, a: Action, id: nat)
    requires t < |st.pcs|
  {
    Removes(st, t, a, id) && Traces(st, id) == 1
  }

  lemma {:induction false} StepLosesIff(st: State, t: nat, a: Action, id: nat)
    requires Inv(st) && Unseen(st) && t < |st.pcs| && PcOk(st.socks, st.pcs[t]) && Step(st, t, a).Next?
    ensures Lost(Step(st, t, a).st, id) <==> Lost(st, id) || Loses(st, t, a, id)
    ensures Step(st, t, a).st.nextData <= id ==> Traces(Step(st, t, a).st, id) == 0
  {
    var s := SlotOf(st, t, a);
    TracesStep(st, t, a, id);
    SumAtLeast(st.pcs, Referrer(id), t);
    if s < |st.socks| && st.socks[s].lastdata == Some(id) { SlotTraces(st, s, id); }
  }

  lemma {:induction false} StepUnseen(st: State, t: nat, a: Action)
    requires Inv(st) && Unseen(st) && t < |st.pcs| && PcOk(st.socks, st.pcs[t]) && Step(st, t, a).Next?
    ensures Unseen(Step(st, t, a).st)
  {
    var st' := Step(st, t, a).st;
    forall id: nat | st'.nextData <= id ensures Traces(st', id) == 0 { StepLosesIff(st, t, a, id); }
  }

  /** No buffer the step makes certain to be freed is so already. */
  ghost predicate CommitsFirst(st: State, t: nat, a: Action)
    requires t < |st.pcs|
  {
    forall id: nat :: Commits(st, t, a, id) ==> Committed(st, id) == 0
  }

  lemma {:induction false} StepFreesOnceIff(st: State, t: nat, a: Action)
    requires Inv(st) && FreedAtMostOnce(st) && t < |st.pcs| && PcOk(st.socks, st.pcs[t]) && Step(st, t, a).Next?
    ensures FreedAtMostOnce(Step(st, t, a).st) <==> CommitsFirst(st, t, a)
  {
    var st' := Step(st, t, a).st;
    forall id: nat
      ensures Committed(st', id) <= 1 <==> (Commits(st, t, a, id) ==> Committed(st, id) == 0)
    {
      assert Committed(st, id) <= 1;
      CommittedStep(st, t, a, id);
    }
  }

  // ----- whole runs -----

  /** Does some move of the run take away the last pointer to the buffer? */
  ghost predicate LosesAlong(st: State, moves: seq<Move>, id: nat)
    requires Inv(st)
    decreases |moves|
  {
    moves != [] &&
    ((Makes(st, moves[0]) && Loses(st, moves[0].0, moves[0].1, id)) ||
     (Stepped(st, moves[0]).Next? && LosesAlong(Stepped(st, moves[0]).st, moves[1..], id)))
  }

  /** A buffer is lost after a run if and only if some move took away its last pointer: lost once is lost for good. */
  lemma {:induction false} RunLosesIff(st: State, moves: seq<Move>, id: nat)
    requires Inv(st) && Unseen(st) && Run(st, moves).Next?
    ensures Unseen(Run(st, moves).st)
    ensures Lost(Run(st, moves).st, id) <==> Lost(st, id) || LosesAlong(st, moves, id)
    decreases |moves|
  {
    if moves != [] {
      if Makes(st, moves[0]) {
        StepLosesIff(st, moves[0].0, moves[0].1, id);
        StepUnseen(st, moves[0].0, moves[0].1);
      }
      RunLosesIff(Stepped(st, moves[0]).st, moves[1..], id);
    }
  }

  /** No move of the run makes a buffer certain to be freed for the second time. */
  ghost predicate FirstAlong(st: State, moves: seq<Move>)
    requires Inv(st)
    decreases |moves|
  {
    moves == [] ||
    ((Makes(st, moves[0]) ==> CommitsFirst(st, moves[0].0, moves[0].1)) &&
     (Stepped(st, moves[0]).Next? ==> FirstAlong(Stepped(st, moves[0]).st, moves[1..])))
  }

  lemma {:induction false} RunCommits(st: State, moves: seq<Move>, id: nat)
    requires Inv(st) && Run(st, moves).Next?
    ensures Committed(st, id) <= Committed(Run(st, moves).st, id)
    decreases |moves|
  {
    if moves != [] {
      if Makes(st, moves[0]) { CommittedStep(st, moves[0].0, moves[0].1, id); }
      RunCommits(Stepped(st, moves[0]).st, moves[1..], id);
    }
  }

  /**
   After a run no buffer is freed twice or about to be if and only if no read finished one, and no close handed one
   over, that was freed or being freed already.
   */
  lemma {:induction false} RunFreesOnceIff(st: State, moves: seq<Move>)
    requires Inv(st) && FreedAtMostOnce(st) && Run(st, moves).Next?
    ensures FreedAtMostOnce(Run(st, moves).st) <==> FirstAlong(st, moves)
    decreases |moves|
  {
    if moves != [] {
      var r := Stepped(st, moves[0]);
      if Makes(st, moves[0]) { StepFreesOnceIff(st, moves[0].0, moves[0].1); }
      if FreedAtMostOnce(r.st) {
        RunFreesOnceIff(r.st, moves[1..]);
      } else {
        var id: nat :| 1 < Committed(r.st, id);
        RunCommits(r.st, moves[1..], id);
      }
    }
  }

  // ----- what is certain to be freed is freed -----

  predicate Due(pc: Pc) {
    pc.Freeing? || (pc.Reading? && (pc.stage.Dropping? || pc.stage.Splitting?))
  }

  function FreeMove(pc: Pc): Action
    requires Due(pc)
  {
    if pc.Freeing? then Delete else if pc.stage.Dropping? then Read(FreeBuffer) else Read(Keep)
  }

  lemma {:induction false} FreeMoves(st: State, t: nat)
    requires Inv(st) && t < |st.pcs| && PcOk(st.socks, st.pcs[t]) && Due(st.pcs[t])
    ensures var m := (t, FreeMove(st.pcs[t]));
      && Stepped(st, m).Next? && Inv(Stepped(st, m).st) && |Stepped(st, m).st.pcs| == |st.pcs|
      && !Due(Stepped(st, m).st.pcs[t]) && Stepped(st, m).st.pcs == st.pcs[t := Stepped(st, m).st.pcs[t]]
      && (forall id: nat :: Committed(Stepped(st, m).st, id) == Committed(st, id))
  {
    var m := (t, FreeMove(st.pcs[t]));
    forall id: nat ensures Committed(Stepped(st, m).st, id) == Committed(st, id) { CommittedStep(st, t, m.1, id); }
  }

  /** When nothing is due, what is certain to be freed was freed. */
  lemma {:induction false} NothingDue(st: State, id: nat)
    requires forall t :: 0 <= t < |st.pcs| ==> !Due(st.pcs[t])
    ensures Committed(st, id) == FreeCount(st, id)
  {
    SumZero(st.pcs, Freer(id));
    SumZero(st.socks, NoSlot());
  }

  /** The moves of the activities from n on that free what they are about to free. */
  ghost function Finish(st: State, n: nat): (r: seq<Move>)
    requires Inv(st) && n <= |st.pcs|
    decreases |st.pcs| - n
  {
    if n == |st.pcs| then []
    else if !Due(st.pcs[n]) then Finish(st, n + 1)
    else
      assert PcOk(st.socks, st.pcs[n]);
      FreeMoves(st, n);
      [(n, FreeMove(st.pcs[n]))] + Finish(Stepped(st, (n, FreeMove(st.pcs[n]))).st, n + 1)
  }

  lemma {:induction false} FinishFrees(st: State, n: nat, id: nat)
    requires Inv(st) && n <= |st.pcs| && forall t :: 0 <= t < n ==> !Due(st.pcs[t])
    ensures Run(st, Finish(st, n)).Next? && FreeCount(Run(st, Finish(st, n)).st, id) == Committed(st, id)
    decreases |st.pcs| - n
  {
    if n == |st.pcs| {
      NothingDue(st, id);
    } else if !Due(st.pcs[n]) {
      FinishFrees(st, n + 1, id);
    } else {
      assert PcOk(st.socks, st.pcs[n]);
      FreeMoves(st, n);
      var m := (n, FreeMove(st.pcs[n]));
      var st' := Stepped(st, m).st;
      FinishFrees(st', n + 1, id);
      assert ([m] + Finish(st', n + 1))[1..] == Finish(st', n + 1);
    }
  }

  // ----- what the counts mean -----

  lemma {:induction false} InitData(slots: nat, activities: nat)
    ensures Unseen(Init(slots, activities)) && FreedAtMostOnce(Init(slots, activities))
  {
    var st := Init(slots, activities);
    forall id: nat ensures Traces(st, id) == 0 && Committed(st, id) == 0 {
      SumZero(st.socks, InSock(id));
      SumZero(st.socks, NoSlot());
      SumZero(st.pcs, Referrer(id));
      SumZero(st.pcs, Freer(id));
    }
  }

  /** The buffer is in no slot, no activity has a pointer to it, and it was not freed. */
  ghost predicate Nowhere(st: State, id: nat) {
    && (forall s :: 0 <= s < |st.socks| ==> st.socks[s].lastdata != Some(id))
    && (forall t :: 0 <= t < |st.pcs| ==> !Refers(st.pcs[t], id))
    && (forall i :: 0 <= i < |st.deleted| ==> st.deleted[i].1.lastdata != Some(id))
    && (forall i :: 0 <= i < |st.read| ==> st.read[i] != id)
  }

  lemma {:induction false} NowhereIff(st: State, id: nat)
    ensures Traces(st, id) == 0 <==> Nowhere(st, id)
  {
    if Nowhere(st, id) {
      SumZero(st.socks, InSock(id));
      SumZero(st.pcs, Referrer(id));
      SumZero(st.deleted, Freed(id));
      SumZero(st.read, Equals(id));
    } else if Traces(st, id) == 0 {
      NoTrace(st, id);
    }
  }

  lemma {:induction false} NoTrace(st: State, id: nat)
    requires Traces(st, id) == 0
    ensures Nowhere(st, id)
  {
    forall s | 0 <= s < |st.socks| ensures st.socks[s].lastdata != Some(id) { SumAtLeast(st.socks, InSock(id), s); }
    forall t | 0 <= t < |st.pcs| ensures !Refers(st.pcs[t], id) { SumAtLeast(st.pcs, Referrer(id), t); }
    forall i | 0 <= i < |st.deleted| ensures st.deleted[i].1.lastdata != Some(id) {
      SumAtLeast(st.deleted, Freed(id), i);
      assert Freed(id)(st.deleted[i]) == 0;
    }
    forall i | 0 <= i < |st.read| ensures st.read[i] != id { SumAtLeast(st.read, Equals(id), i); }
  }

  /** A slot with a buffer, taken for itself: is the pointer there the only one, and the buffer not freed? */
  ghost predicate OnlyPointer(st: State, s: nat)
    requires s < |st.socks|
  {
    var k := st.socks[s];
    k.lastdata.Some? && Nowhere(st.(socks := st.socks[s := k.(lastdata := None)]), k.lastdata.value)
  }

  lemma {:induction false} OnlyPointerIff(st: State, s: nat)
    requires s < |st.socks| && st.socks[s].lastdata.Some?
    ensures OnlyPointer(st, s) <==> Traces(st, st.socks[s].lastdata.value) == 1
  {
    var k, id := st.socks[s], st.socks[s].lastdata.value;
    var k' := k.(lastdata := None);
    SumUpdate(st.socks, InSock(id), s, k');
    NowhereIff(st.(socks := st.socks[s := k']), id);
  }

  /** When no call is under way, a buffer not lost is in a slot or was freed. */
  lemma {:induction false} QuietLostIff(st: State, id: nat)
    requires id < st.nextData && forall t :: 0 <= t < |st.pcs| ==> st.pcs[t].Idle?
    ensures Lost(st, id) <==>
      FreeCount(st, id) == 0 && forall s :: 0 <= s < |st.socks| ==> st.socks[s].lastdata != Some(id)
  {
    SumZero(st.pcs, Referrer(id));
    if forall s :: 0 <= s < |st.socks| ==> st.socks[s].lastdata != Some(id) {
      SumZero(st.socks, InSock(id));
    } else {
      var s :| 0 <= s < |st.socks| && st.socks[s].lastdata == Some(id);
      SumAtLeast(st.socks, InSock(id), s);
    }
  }
}
