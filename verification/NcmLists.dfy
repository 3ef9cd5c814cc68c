/** push_ntb and pop_ntb (lib/ncm/struct.c), with the index updates exactly as written. */
module NcmLists {
  import opened Options

  const NTB_N := 2

  /** ntb_list_t: NTBs are named by their number, NULL is None. */
  datatype NtbList = NtbList(slots: seq<Option<nat>>, front: nat, back: nat)

  const EMPTY := NtbList([None, None], 0, 0)

  /** The states a list can be in: the indices go from 0 to 1 and stay there. */
  ghost predicate Valid(l: NtbList) {
    && |l.slots| == NTB_N && l.front <= 1 && l.back <= 1
    && (l.back == 0 ==> l == EMPTY)
    && (l.back == 1 && l.front == 0 ==> l.slots[0].Some?)
    && (l.front == 1 ==> l.back == 1 && l.slots[0] == None)
  }

  /** What the list holds, oldest first. */
  function Contents(l: NtbList): seq<nat>
    requires |l.slots| == NTB_N
  {
    match (l.slots[0], l.slots[1])
    case (None, None) => []
    case (Some(a), None) => [a]
    case (None, Some(b)) => [b]
    case (Some(a), Some(b)) => [a, b]
  }

  /** Two places until the first pop, one ever after. */
  function Capacity(l: NtbList): nat {
    if l.front == 0 then 2 else 1
  }

  /** push_ntb of a real NTB: `+=` where `=` was meant keeps list_back at 1 once it is there. */
  function Push(l: NtbList, ntb: nat): (r: (NtbList, bool))
    requires Valid(l)
    ensures Valid(r.0)
    ensures r.1 <==> |Contents(l)| < Capacity(l)
    ensures Contents(r.0) == if r.1 then Contents(l) + [ntb] else Contents(l)
    ensures Capacity(r.0) == Capacity(l)
  {
    if l.slots[l.back].Some? then (l, false)
    else (NtbList(l.slots[l.back := Some(ntb)], l.front, l.back + (l.back + 1) % NTB_N), true)
  }

  /** pop_ntb */
  function Pop(l: NtbList): (r: (NtbList, Option<nat>))
    requires Valid(l)
    ensures Valid(r.0)
    ensures Contents(l) == [] ==> r == (l, None)
    ensures Contents(l) != [] ==> r.1 == Some(Contents(l)[0]) && Contents(r.0) == Contents(l)[1..] && Capacity(r.0) == 1
  {
    if l.slots[l.front] == None then (l, None)
    else (NtbList(l.slots[l.front := None], l.front + (l.front + 1) % NTB_N, l.back), l.slots[l.front])
  }

  /** A list that has been popped once refuses a second element although one of its two slots is empty. */
  lemma {:induction false} CapacityLost(l: NtbList, a: nat, b: nat)
    requires Valid(l) && l.front == 1 && Contents(l) == [a]
    ensures !Push(l, b).1 && l.slots[0] == None
  {
  }
}
