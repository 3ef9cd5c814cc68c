/** The list of blocks in use kept by CyU3PMemAlloc, CyU3PMemFree and CyU3PMemCorruptionCheck (src/cyfx/cyfx_tx.c). */
module InUseList {
  import opened Options

  /** MemBlockInfo, the header of a block; end is the word behind the block's data. */
  datatype Info = Info(id: nat, size: nat, prev: Option<nat>, next: Option<nat>, start: nat, end: nat)

  const START_SIG := 0x4658334D
  const END_SIG := 0x454E444D

  predicate Signed(b: Info) {
    b.start == START_SIG && b.end == END_SIG
  }

  /** A header without its links. */
  function Bare(b: Info): Info {
    b.(prev := None, next := None)
  }

  function Before(list: seq<nat>, i: nat): Option<nat>
    requires i <= |list|
  {
    if i == 0 then None else Some(list[i - 1])
  }

  function After(list: seq<nat>, i: nat): Option<nat>
    requires i < |list|
  {
    if i + 1 == |list| then None else Some(list[i + 1])
  }

  ghost predicate Distinct(list: seq<nat>) {
    forall i, j :: 0 <= i < j < |list| ==> list[i] != list[j]
  }

  /** Header i of the list is in memory and points to its neighbours. */
  ghost predicate NodeOk(mem: map<nat, Info>, list: seq<nat>, i: nat)
    requires i < |list|
  {
    list[i] in mem && mem[list[i]].prev == Before(list, i) && mem[list[i]].next == After(list, i)
  }

  /** The headers in mem link the blocks of list, oldest first, to and fro; head is the newest. */
  ghost predicate Linked(mem: map<nat, Info>, head: Option<nat>, list: seq<nat>) {
    Distinct(list) && head == Before(list, |list|) && forall i :: 0 <= i < |list| ==> NodeOk(mem, list, i)
  }

  function Without(list: seq<nat>, k: nat): seq<nat>
    requires k < |list|
  {
    list[..k] + list[k + 1..]
  }

  /** Headers after the newest block is pushed. */
  function Pushed(mem: map<nat, Info>, head: Option<nat>, a: nat, b: Info): map<nat, Info> {
    var m := mem[a := b];
    if head.Some? && head.value in m then m[head.value := m[head.value].(next := Some(a))] else m
  }

  lemma {:induction false} PushedLinked(mem: map<nat, Info>, head: Option<nat>, list: seq<nat>, a: nat, b: Info)
    requires Linked(mem, head, list) && a !in list && b.prev == head && b.next == None
    ensures Linked(Pushed(mem, head, a, b), Some(a), list + [a])
  {
    var m, l := Pushed(mem, head, a, b), list + [a];
    if list != [] { assert NodeOk(mem, list, |list| - 1); }
    forall i | 0 <= i < |l| ensures NodeOk(m, l, i) {
      if i < |list| { assert NodeOk(mem, list, i); }
    }
  }

  /** Headers after block b is taken out: its neighbours point to each other. */
  function Unlinked(mem: map<nat, Info>, b: Info): map<nat, Info> {
    var m := if b.next.Some? && b.next.value in mem then mem[b.next.value := mem[b.next.value].(prev := b.prev)]
             else mem;
    if b.prev.Some? && b.prev.value in m then m[b.prev.value := m[b.prev.value].(next := b.next)] else m
  }

  lemma {:induction false} UnlinkedNode(mem: map<nat, Info>, head: Option<nat>, list: seq<nat>, k: nat, i: nat)
    requires Linked(mem, head, list) && k < |list| && i < |list| && i != k && list[k] in mem
    ensures var l := Without(list, k); NodeOk(Unlinked(mem, mem[list[k]]), l, if i < k then i else i - 1)
  {
    var l := Without(list, k);
    assert NodeOk(mem, list, k) && NodeOk(mem, list, i);
    if 0 < k { assert NodeOk(mem, list, k - 1); }
    if k + 1 < |list| { assert NodeOk(mem, list, k + 1); }
  }

  lemma {:induction false} UnlinkedLinked(mem: map<nat, Info>, head: Option<nat>, list: seq<nat>, k: nat)
    requires Linked(mem, head, list) && k < |list| && list[k] in mem
    ensures var b := mem[list[k]];
      Linked(Unlinked(mem, b), if head == Some(list[k]) then b.prev else head, Without(list, k))
  {
    var l := Without(list, k);
    assert NodeOk(mem, list, k);
    var m := Unlinked(mem, mem[list[k]]);
    forall i | 0 <= i < |l| ensures NodeOk(m, l, i) {
      UnlinkedNode(mem, head, list, k, if i < k then i else i + 1);
    }
  }

  class Tracker {
    var mem: map<nat, Info>
    var head: Option<nat>
    var allocs: nat
    var frees: nat
    ghost var list: seq<nat>

    ghost predicate Valid()
      reads this
    {
      Linked(mem, head, list)
    }

    constructor ()
      ensures Valid() && list == [] && mem == map[] && allocs == 0 && frees == 0
    {
      mem, head, list, allocs, frees := map[], None, [], 0, 0;
    }

    /** CyU3PMemAlloc, once the byte pool gave the block at a. */
    method Track(a: nat, size: nat)
      requires Valid() && a !in list
      modifies this
      ensures Valid() && list == old(list) + [a] && allocs == (old(allocs) + 1) % 0x1_0000_0000 && frees == old(frees)
      ensures a in mem && Signed(mem[a]) && mem[a].size == size && mem[a].id == old(allocs)
      ensures forall x :: x in old(mem) && x != a ==> x in mem && mem[x].(next := None) == old(mem)[x].(next := None)
    {
      var b := Info(allocs, size, head, None, START_SIG, END_SIG);
      PushedLinked(mem, head, list, a, b);
      assert head.Some? ==> NodeOk(mem, list, |list| - 1);
      allocs := (allocs + 1) % 0x1_0000_0000;
      mem := mem[a := b];
      if head.Some? {
        mem := mem[head.value := mem[head.value].(next := Some(a))];
      }
      head := Some(a);
      list := list + [a];
    }

    /** CyU3PMemFree of the block at a: reports whether its signatures were overwritten, and takes it off the list. */
    method Untrack(a: nat, ghost k: nat) returns (bad: bool)
      requires Valid() && k < |list| && a == list[k]
      modifies this
      ensures Valid() && list == Without(old(list), k) && allocs == old(allocs)
      ensures frees == (old(frees) + 1) % 0x1_0000_0000
      ensures a in old(mem) && bad == !Signed(old(mem)[a])
      ensures forall x :: x in old(mem) ==> x in mem && Bare(mem[x]) == Bare(old(mem)[x])
    {
      assert NodeOk(mem, list, k);
      var b := mem[a];
      bad := b.start != START_SIG || b.end != END_SIG;
      UnlinkedLinked(mem, head, list, k);
      assert b.next.Some? ==> NodeOk(mem, list, k + 1);
      assert b.prev.Some? ==> NodeOk(mem, list, k - 1);
      frees := (frees + 1) % 0x1_0000_0000;
      if b.next.Some? {
        mem := mem[b.next.value := mem[b.next.value].(prev := b.prev)];
      }
      if b.prev.Some? {
        mem := mem[b.prev.value := mem[b.prev.value].(next := b.next)];
      }
      if head == Some(a) { head := b.prev; }
      list := Without(list, k);
    }

    /** CyU3PMemCorruptionCheck: every block in use is visited, newest first, until one is bad. */
    method CorruptionCheck(base: nat, top: nat) returns (ok: bool, bad: Option<nat>)
      requires Valid()
      ensures ok <==> forall i :: 0 <= i < |list| ==> list[i] in mem && base <= list[i] < top && Signed(mem[list[i]])
      ensures bad.Some? ==> bad.value in list && bad.value in mem && !Signed(mem[bad.value])
    {
      var at := head;
      ghost var i: nat := |list|;
      while at.Some?
        invariant i <= |list| && at == Before(list, i)
        invariant forall j :: i <= j < |list| ==> list[j] in mem && base <= list[j] < top && Signed(mem[list[j]])
        decreases i
      {
        i := i - 1;
        assert NodeOk(mem, list, i);
        if at.value < base || top <= at.value { return false, None; }
        var b := mem[at.value];
        if b.start != START_SIG || b.end != END_SIG { return false, at; }
        at := b.prev;
      }
      return true, None;
    }
  }
}
