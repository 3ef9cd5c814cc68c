/**
 A run in which dns_enqueue refuses a query although an entry is completed: the entry's age, an u8_t, has come round to
 zero (lib/lwip/src/core/dns.c:1449-1450).
 */
module DnsAge {
  import opened Options
  import opened DnsTable
  import opened DnsRuns

  /** Entry 0 was completed by the first query and is still cached, k queries after it used entry 1 in vain. */
  predicate Shape(d: Dns, k: nat) {
    && |d.table| == 2 && d.requests == [None, None] && d.servers == [1] && d.maxRetries == 4
    && d.table[0].state == Done && d.table[0].seqno == 0 && d.table[1].state == Unused
    && d.seqno == (1 + k) % 256 && d.txid == 1 + k
  }

  /** A query and an answer that is not to be cached. */
  function Round(k: nat): seq<Event> {
    [Query(false), Message(1, k + 2, Address(7, 0))]
  }

  /** The query alone. */
  lemma {:induction false} Asked(d: Dns, k: nat)
    requires Inv(d) && Shape(d, k) && k < 255
    ensures var d1 := Step(d, Query(false));
      && d1.table == [d.table[0], d1.table[1]] && d1.requests == [None, None] && d1.servers == [1] && d1.maxRetries == 4
      && d1.table[1].state == Asking && d1.table[1].txid == k + 2 && d1.table[1].server == 0
      && d1.seqno == (2 + k) % 256 && d1.txid == k + 2
  {
    PickIs(d.table, d.seqno);
    assert FirstUnused(d.table, 1) == 1;
    assert Pick(d.table, d.seqno) == Some(1);
    var f := Filled(d, 1, false);
    assert EntryOk(f, 1);
    assert !Taken(f.table, f.txid, 1);
    assert FreeTxid(f.table, f.txid, 1) == k + 2;
  }

  lemma {:induction false} Answered(d: Dns, k: nat)
    requires Inv(d) && |d.table| == 2 && d.requests == [None, None] && d.servers == [1]
    requires d.table[0].state == Done && d.table[1].state == Asking && d.table[1].txid == k + 2
    requires d.table[1].server == 0
    ensures var d1 := Step(d, Message(1, k + 2, Address(7, 0)));
      && d1.table == [d.table[0], d1.table[1]] && d1.table[1].state == Unused && d1.requests == [None, None]
      && d1.servers == d.servers && d1.maxRetries == d.maxRetries && d1.seqno == d.seqno && d1.txid == d.txid
  {
    assert Match(d.table, k + 2, 1) == 1;
    assert EntryOk(d, 1);
  }

  lemma {:induction false} OneRound(d: Dns, k: nat)
    requires Inv(d) && Shape(d, k) && k < 255
    ensures Shape(Run(d, Round(k)), k + 1)
  {
    var d1 := Step(d, Query(false));
    Asked(d, k);
    StepInv(d, Query(false));
    Answered(d1, k);
    assert Round(k)[1..] == [Message(1, k + 2, Address(7, 0))];
    assert Round(k)[1..][1..] == [];
    assert Run(d1, Round(k)[1..]) == Step(d1, Round(k)[1]);
  }

  lemma {:induction false} RunConcat(d: Dns, a: seq<Event>, b: seq<Event>)
    requires Inv(d)
    ensures Run(d, a + b) == Run(Run(d, a), b)
    decreases |a|
  {
    if a == [] {
      assert a + b == b;
    } else {
      var d1 := Step(d, a[0]);
      StepInv(d, a[0]);
      assert (a + b)[1..] == a[1..] + b && (a + b)[0] == a[0];
      RunConcat(d1, a[1..], b);
      assert Run(d, a) == Run(d1, a[1..]) && Run(d, a + b) == Run(d1, a[1..] + b);
    }
  }

  function Rounds(k: nat): seq<Event> {
    if k == 0 then [] else Rounds(k - 1) + Round(k - 1)
  }

  lemma {:induction false} ManyRounds(d: Dns, k: nat)
    requires Inv(d) && Shape(d, 0) && k <= 255
    ensures Shape(Run(d, Rounds(k)), k)
  {
    if 0 < k {
      ManyRounds(d, k - 1);
      OneRound(Run(d, Rounds(k - 1)), k - 1);
      RunConcat(d, Rounds(k - 1), Round(k - 1));
    }
  }

  /** The first query, answered with an address to keep. */
  lemma {:induction false} FirstCached()
    ensures var d := Init(2, [1], 4);
      Inv(d) && Shape(Run(d, [Query(false), Message(1, 1, Address(7, 1000))]), 0)
  {
    InitInv(2, [1], 4);
    var d, events := Init(2, [1], 4), [Query(false), Message(1, 1, Address(7, 1000))];
    PickIs(d.table, d.seqno);
    assert Pick(d.table, d.seqno) == Some(0);
    var f := Filled(d, 0, false);
    assert EntryOk(f, 0);
    assert !Taken(f.table, f.txid, 1);
    var d1 := Step(d, events[0]);
    assert d1.table[0].state == Asking && d1.table[0].txid == 1;
    StepInv(d, events[0]);
    assert EntryOk(d1, 0);
    var d2 := Step(d1, events[1]);
    assert Run(d1, events[1..]) == d2 by { assert events[1..][1..] == [] && events[1..][0] == events[1]; }
  }

  /** With the other entry busy after 255 more queries, the next is refused although entry 0 is completed. */
  lemma {:induction false} LastRefused(d: Dns, k: nat)
    requires Inv(d) && Shape(d, k) && k == 254
    ensures var e := Step(d, Query(false)); Inv(e) && e.table[0].state == Done && !Enqueue(e, true).1
  {
    Asked(d, k);
    var e := Step(d, Query(false));
    StepInv(d, Query(false));
    PickIs(e.table, e.seqno);
    assert Age(e.seqno, e.table[0]) == 0;
  }

  lemma {:induction false} RunOne(d: Dns, e: Event)
    requires Inv(d)
    ensures Run(d, [e]) == Step(d, e)
  {
    StepInv(d, e);
    assert [e][1..] == [];
  }

  /** The whole run: the 257th query is refused. */
  lemma {:induction false} Refused(k: nat)
    requires k == 254
    ensures var d := Init(2, [1], 4);
      var events := [Query(false), Message(1, 1, Address(7, 1000))] + (Rounds(k) + [Query(false)]);
      && Inv(d) && var e := Run(d, events); e.table[0].state == Done && !Enqueue(e, true).1
  {
    var d, first := Init(2, [1], 4), [Query(false), Message(1, 1, Address(7, 1000))];
    FirstCached();
    var d0 := Run(d, first);
    ManyRounds(d0, k);
    RunConcat(d, first, Rounds(k) + [Query(false)]);
    RunConcat(d0, Rounds(k), [Query(false)]);
    RunOne(Run(d0, Rounds(k)), Query(false));
    LastRefused(Run(d0, Rounds(k)), k);
  }
}
