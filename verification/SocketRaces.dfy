/** Schedules of one socket and two threads in which unlocked accesses to lastdata go wrong, from the empty table on. */
module SocketRaces {
  import opened Options
  import opened SocketTable
  import opened SocketRuns
  import opened SocketData

  const C := Conn(0, true)

  /** One open socket, held by two activities. */
  const TWO := State([Sock(2, 0, Some(C), None)], [Holding(0, C), Holding(0, C)], 1, [], 0, [])

  /** One socket just created, its creator about to clear lastdata. */
  const FRESH := State([Sock(1, 0, Some(C), None)], [Created(0, C), Idle], 1, [], 0, [])

  lemma {:induction false} FreshReachable(rest: seq<Move>)
    ensures Inv(Init(1, 2)) && Inv(FRESH) && Run(Init(1, 2), [(0, Make(true)), (0, Scan)] + rest) == Run(FRESH, rest)
  {
    InitInv(1, 2);
    var s0, empty := Init(1, 2), Sock(0, 0, None, None);
    assert s0.socks == [empty] && s0.pcs == [Idle, Idle];
    var s1 := State([empty], [Scanning(C, 0), Idle], 1, [], 0, []);
    TwoMoves(s0, (0, Make(true)), s1, (0, Scan), FRESH, rest);
  }

  lemma {:induction false} TwoReachable(rest: seq<Move>)
    ensures Inv(FRESH) && Inv(TWO)
    ensures Run(FRESH, [(0, Clear)] + ([(1, Get(0)), (1, Check)] + rest)) == Run(TWO, rest)
  {
    FreshReachable([]);
    var s1 := FRESH.(pcs := [Holding(0, C), Idle]);
    var s2 := State([Sock(2, 0, Some(C), None)], [Holding(0, C), Checking(0)], 1, [], 0, []);
    OneMove(FRESH, s1, 0, Clear, [(1, Get(0)), (1, Check)] + rest);
    TwoMoves(s1, (1, Get(0)), s2, (1, Check), TWO, rest);
  }

  /** Both copy from the same buffer: the second loads what the first stored. */
  const BOTH := TWO.(socks := [Sock(2, 0, Some(C), Some(0))],
                     pcs := [Reading(0, C, Copying(0)), Reading(0, C, Copying(0))], nextData := 1)

  /** One has received a buffer and not stored it yet. */
  const FIRST := TWO.(pcs := [Reading(0, C, Received(0)), Holding(0, C)], nextData := 1)

  lemma {:induction false} FirstReachable(rest: seq<Move>)
    ensures Inv(TWO) && Inv(FIRST) && Run(TWO, [(0, Read(Load)), (0, Read(Receive))] + rest) == Run(FIRST, rest)
  {
    TwoReachable([]);
    var s1 := TWO.(pcs := [Reading(0, C, Waiting), Holding(0, C)]);
    TwoMoves(TWO, (0, Read(Load)), s1, (0, Read(Receive)), FIRST, rest);
  }

  lemma {:induction false} BothReachable(rest: seq<Move>)
    ensures Inv(FIRST) && Inv(BOTH) && Run(FIRST, [(0, Read(Store)), (1, Read(Load))] + rest) == Run(BOTH, rest)
  {
    FirstReachable([]);
    var s1 := BOTH.(pcs := [Reading(0, C, Copying(0)), Holding(0, C)]);
    TwoMoves(FIRST, (0, Read(Store)), s1, (1, Read(Load)), BOTH, rest);
  }

  /** One of them has freed it. */
  const ONCE := TWO.(pcs := [Holding(0, C), Reading(0, C, Copying(0))], nextData := 1, read := [0])

  lemma {:induction false} FirstFrees(rest: seq<Move>)
    ensures Inv(BOTH) && Inv(ONCE) && Run(BOTH, [(0, Read(Erase)), (0, Read(FreeBuffer))] + rest) == Run(ONCE, rest)
  {
    BothReachable([]);
    var s1 := TWO.(pcs := [Reading(0, C, Dropping(0)), Reading(0, C, Copying(0))], nextData := 1);
    TwoMoves(BOTH, (0, Read(Erase)), s1, (0, Read(FreeBuffer)), ONCE, rest);
  }

  /** Then the other frees it again. */
  lemma {:induction false} SecondFrees()
    ensures Inv(ONCE)
    ensures var r := Run(ONCE, [(1, Read(Erase)), (1, Read(FreeBuffer))] + []); r.Next? && r.st.read == [0, 0]
  {
    FirstFrees([]);
    var s1 := ONCE.(pcs := [Holding(0, C), Reading(0, C, Dropping(0))]);
    var s2 := s1.(pcs := [Holding(0, C), Holding(0, C)], read := [0, 0]);
    TwoMoves(ONCE, (1, Read(Erase)), s1, (1, Read(FreeBuffer)), s2, []);
  }

  /** The whole schedule: the buffer one thread stored is loaded by both and freed by both. */
  lemma {:induction false} DoubleFree()
    ensures Inv(Init(1, 2))
    ensures var moves := [(0, Make(true)), (0, Scan)] + ([(0, Clear)] + ([(1, Get(0)), (1, Check)]
        + ([(0, Read(Load)), (0, Read(Receive))] + ([(0, Read(Store)), (1, Read(Load))]
        + ([(0, Read(Erase)), (0, Read(FreeBuffer))] + ([(1, Read(Erase)), (1, Read(FreeBuffer))] + []))))));
      Run(Init(1, 2), moves).Next? && Run(Init(1, 2), moves).st.read == [0, 0]
  {
    var r1 := [(1, Read(Erase)), (1, Read(FreeBuffer))] + [];
    var r2 := [(0, Read(Erase)), (0, Read(FreeBuffer))] + r1;
    var r3 := [(0, Read(Store)), (1, Read(Load))] + r2;
    var r4 := [(0, Read(Load)), (0, Read(Receive))] + r3;
    FreshReachable([(0, Clear)] + ([(1, Get(0)), (1, Check)] + r4));
    TwoReachable(r4);
    FirstReachable(r3);
    BothReachable(r2);
    FirstFrees(r1);
    SecondFrees();
  }

  /** Both wait for data. */
  const WAIT := TWO.(pcs := [Reading(0, C, Waiting), Reading(0, C, Waiting)])

  lemma {:induction false} WaitReachable(rest: seq<Move>)
    ensures Inv(TWO) && Inv(WAIT) && Run(TWO, [(0, Read(Load)), (1, Read(Load))] + rest) == Run(WAIT, rest)
  {
    TwoReachable([]);
    TwoMoves(TWO, (0, Read(Load)), TWO.(pcs := [Reading(0, C, Waiting), Holding(0, C)]), (1, Read(Load)), WAIT, rest);
  }

  /** Both have received something. */
  const GOT := TWO.(pcs := [Reading(0, C, Received(0)), Reading(0, C, Received(1))], nextData := 2)

  lemma {:induction false} GotReachable(rest: seq<Move>)
    ensures Inv(WAIT) && Inv(GOT) && Run(WAIT, [(0, Read(Receive)), (1, Read(Receive))] + rest) == Run(GOT, rest)
  {
    WaitReachable([]);
    var s1 := WAIT.(pcs := [Reading(0, C, Received(0)), Reading(0, C, Waiting)], nextData := 1);
    TwoMoves(WAIT, (0, Read(Receive)), s1, (1, Read(Receive)), GOT, rest);
  }

  /** The second store has overwritten the first; each copies from its own buffer. */
  const OVER := GOT.(socks := [Sock(2, 0, Some(C), Some(1))],
                     pcs := [Reading(0, C, Copying(0)), Reading(0, C, Copying(1))])

  lemma {:induction false} OverReachable(rest: seq<Move>)
    ensures Inv(GOT) && Inv(OVER) && Run(GOT, [(0, Read(Store)), (1, Read(Store))] + rest) == Run(OVER, rest)
  {
    GotReachable([]);
    var s1 := GOT.(socks := [Sock(2, 0, Some(C), Some(0))],
                   pcs := [Reading(0, C, Copying(0)), Reading(0, C, Received(1))]);
    TwoMoves(GOT, (0, Read(Store)), s1, (1, Read(Store)), OVER, rest);
  }

  const PEEKED := OVER.(pcs := [Holding(0, C), Reading(0, C, Copying(1))])

  /** From there, if the first thread only peeks, what it received is lost. */
  lemma {:induction false} LostStore()
    ensures Inv(OVER)
    ensures var r := Run(OVER, [(0, Read(Peek))] + []); r.Next? && Lost(r.st, 0)
  {
    OverReachable([]);
    OneMove(OVER, PEEKED, 0, Read(Peek), []);
    assert Nowhere(PEEKED, 0);
    NowhereIff(PEEKED, 0);
  }

  /** The whole schedule of two readers that both wait. */
  lemma {:induction false} LostStoreRun()
    ensures Inv(Init(1, 2))
    ensures var moves := [(0, Make(true)), (0, Scan)] + ([(0, Clear)] + ([(1, Get(0)), (1, Check)]
        + ([(0, Read(Load)), (1, Read(Load))] + ([(0, Read(Receive)), (1, Read(Receive))]
        + ([(0, Read(Store)), (1, Read(Store))] + ([(0, Read(Peek))] + []))))));
      Run(Init(1, 2), moves).Next? && Lost(Run(Init(1, 2), moves).st, 0)
  {
    var r1 := [(0, Read(Peek))] + [];
    var r2 := [(0, Read(Store)), (1, Read(Store))] + r1;
    var r3 := [(0, Read(Receive)), (1, Read(Receive))] + r2;
    var r4 := [(0, Read(Load)), (1, Read(Load))] + r3;
    FreshReachable([(0, Clear)] + ([(1, Get(0)), (1, Check)] + r4));
    TwoReachable(r4);
    WaitReachable(r3);
    GotReachable(r2);
    OverReachable(r1);
    LostStore();
  }

  /** The first has freed its own buffer, and cleared the pointer to the other one. */
  const HALF := OVER.(socks := [Sock(2, 0, Some(C), None)],
                      pcs := [Holding(0, C), Reading(0, C, Copying(1))], read := [0])

  lemma {:induction false} HalfReachable(rest: seq<Move>)
    ensures Inv(OVER) && Inv(HALF) && Run(OVER, [(0, Read(Erase)), (0, Read(FreeBuffer))] + rest) == Run(HALF, rest)
  {
    OverReachable([]);
    var s1 := HALF.(pcs := [Reading(0, C, Dropping(0)), Reading(0, C, Copying(1))], read := []);
    TwoMoves(OVER, (0, Read(Erase)), s1, (0, Read(FreeBuffer)), HALF, rest);
  }

  lemma {:induction false} HalfFinished()
    ensures Inv(HALF)
    ensures Run(HALF, [(1, Read(Erase)), (1, Read(FreeBuffer))] + [])
      == Next(HALF.(pcs := [Holding(0, C), Holding(0, C)], read := [0, 1]))
  {
    HalfReachable([]);
    var s1 := HALF.(pcs := [Holding(0, C), Reading(0, C, Dropping(1))]);
    var s2 := s1.(pcs := [Holding(0, C), Holding(0, C)], read := [0, 1]);
    TwoMoves(HALF, (1, Read(Erase)), s1, (1, Read(FreeBuffer)), s2, []);
  }

  /** If both read to the end instead, each frees its own buffer and nothing is lost. */
  lemma {:induction false} OverwriteHarmless()
    ensures Inv(OVER)
    ensures var r := Run(OVER, [(0, Read(Erase)), (0, Read(FreeBuffer))]
        + ([(1, Read(Erase)), (1, Read(FreeBuffer))] + []));
      r.Next? && r.st.read == [0, 1] && r.st.deleted == [] && r.st.nextData == 2
  {
    HalfReachable([(1, Read(Erase)), (1, Read(FreeBuffer))] + []);
    HalfFinished();
  }

  /** A thread with an old descriptor of the same number uses the slot before its creator has cleared it. */
  const EARLY := State([Sock(2, 0, Some(C), None)], [Created(0, C), Holding(0, C)], 1, [], 0, [])

  lemma {:induction false} EarlyReachable(rest: seq<Move>)
    ensures Inv(FRESH) && Inv(EARLY) && Run(FRESH, [(1, Get(0)), (1, Check)] + rest) == Run(EARLY, rest)
  {
    FreshReachable([]);
    TwoMoves(FRESH, (1, Get(0)), EARLY.(pcs := [Created(0, C), Checking(0)]), (1, Check), EARLY, rest);
  }

  const FILLED := EARLY.(pcs := [Created(0, C), Reading(0, C, Received(0))], nextData := 1)

  lemma {:induction false} FilledReachable(rest: seq<Move>)
    ensures Inv(EARLY) && Inv(FILLED) && Run(EARLY, [(1, Read(Load)), (1, Read(Receive))] + rest) == Run(FILLED, rest)
  {
    EarlyReachable([]);
    var s1 := EARLY.(pcs := [Created(0, C), Reading(0, C, Waiting)]);
    TwoMoves(EARLY, (1, Read(Load)), s1, (1, Read(Receive)), FILLED, rest);
  }

  /** That thread keeps the rest of what it received in the slot. */
  const KEPT := FILLED.(socks := [Sock(2, 0, Some(C), Some(0))], pcs := [Created(0, C), Holding(0, C)])

  lemma {:induction false} KeptReachable(rest: seq<Move>)
    ensures Inv(FILLED) && Inv(KEPT) && Run(FILLED, [(1, Read(Store)), (1, Read(Keep))] + rest) == Run(KEPT, rest)
  {
    FilledReachable([]);
    var s1 := FILLED.(socks := [Sock(2, 0, Some(C), Some(0))], pcs := [Created(0, C), Reading(0, C, Copying(0))]);
    TwoMoves(FILLED, (1, Read(Store)), s1, (1, Read(Keep)), KEPT, rest);
  }

  lemma {:induction false} KeptCleared()
    ensures Inv(KEPT) && Run(KEPT, [(0, Clear)] + []).Next? && Lost(Run(KEPT, [(0, Clear)] + []).st, 0)
  {
    KeptReachable([]);
    var st := KEPT.(socks := [Sock(2, 0, Some(C), None)], pcs := [Holding(0, C), Holding(0, C)]);
    OneMove(KEPT, st, 0, Clear, []);
    assert Nowhere(st, 0);
    NowhereIff(st, 0);
  }

  /** Clearing then loses it. */
  lemma {:induction false} ClearLost()
    ensures Inv(Init(1, 2))
    ensures var moves := [(0, Make(true)), (0, Scan)] + ([(1, Get(0)), (1, Check)]
        + ([(1, Read(Load)), (1, Read(Receive))] + ([(1, Read(Store)), (1, Read(Keep))] + ([(0, Clear)] + []))));
      Run(Init(1, 2), moves).Next? && Lost(Run(Init(1, 2), moves).st, 0)
  {
    var r1 := [(0, Clear)] + [];
    var r2 := [(1, Read(Store)), (1, Read(Keep))] + r1;
    var r3 := [(1, Read(Load)), (1, Read(Receive))] + r2;
    FreshReachable([(1, Get(0)), (1, Check)] + r3);
    EarlyReachable(r3);
    FilledReachable(r2);
    KeptReachable(r1);
    KeptCleared();
  }
}
