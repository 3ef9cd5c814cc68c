/**
 Host names in DNS messages (section 4.1.4 of RFC 1035): what dns_send writes and dns_skip_name skips
 (lib/lwip/src/core/dns.c).
 */
module DnsNames {
  import opened Bytes
  import opened Options

  const DOT: byte := 46

  /** Length bytes from here on are pointers. */
  const COMPRESSED := 0xC0

  // ----- host names and labels -----

  /** Where the label that starts at i ends. */
  function LabelEnd(name: seq<byte>, i: nat): (j: nat)
    requires i <= |name|
    ensures i <= j <= |name| && (j < |name| ==> name[j] == DOT)
    decreases |name| - i
  {
    if i == |name| || name[i] == DOT then i else LabelEnd(name, i + 1)
  }

  lemma {:induction false} LabelHasNoDot(name: seq<byte>, i: nat, k: nat)
    requires i <= |name| && i <= k < LabelEnd(name, i)
    ensures name[k] != DOT
    decreases |name| - i
  {
    if i < k { LabelHasNoDot(name, i + 1, k); }
  }

  /** The labels of the name from i on. */
  function Labels(name: seq<byte>, i: nat): (ls: seq<seq<byte>>)
    requires i <= |name|
    ensures ls != []
    decreases |name| - i
  {
    var j := LabelEnd(name, i);
    if j == |name| then [name[i..]] else [name[i..j]] + Labels(name, j + 1)
  }

  /** The name with these labels. */
  function Joined(ls: seq<seq<byte>>): seq<byte>
    requires ls != []
  {
    if |ls| == 1 then ls[0] else ls[0] + [DOT] + Joined(ls[1..])
  }

  /** A name is its labels with dots between them. */
  lemma {:induction false} JoinedLabels(name: seq<byte>, i: nat)
    requires i <= |name|
    ensures Joined(Labels(name, i)) == name[i..]
    decreases |name| - i
  {
    var j := LabelEnd(name, i);
    if j < |name| {
      JoinedLabels(name, j + 1);
      JoinedSplit(name, i, j, Labels(name, j + 1));
    }
  }

  lemma {:induction false} JoinedSplit(name: seq<byte>, i: nat, j: nat, rest: seq<seq<byte>>)
    requires i <= j < |name| && name[j] == DOT && rest != [] && Joined(rest) == name[j + 1..]
    ensures Joined([name[i..j]] + rest) == name[i..]
  {
    JoinedCons(name[i..j], rest);
    SplitAt(name, i, j);
  }

  lemma {:induction false} JoinedCons(l: seq<byte>, rest: seq<seq<byte>>)
    requires rest != []
    ensures Joined([l] + rest) == l + [DOT] + Joined(rest)
  {
    assert ([l] + rest)[1..] == rest;
  }

  lemma {:induction false} SplitAt(name: seq<byte>, i: nat, j: nat)
    requires i <= j < |name| && name[j] == DOT
    ensures name[i..] == name[i..j] + [DOT] + name[j + 1..]
  {
  }

  // ----- names in a message -----

  /** Labels as length bytes and characters, closed by a zero byte. */
  function Wire(ls: seq<seq<byte>>): seq<byte>
    requires forall k :: 0 <= k < |ls| ==> |ls[k]| < 256
  {
    if ls == [] then [0] else [|ls[0]| as byte] + ls[0] + Wire(ls[1..])
  }

  /** The labels of the uncompressed name at i, and where it ends. */
  function Parse(p: seq<byte>, i: nat): Option<(seq<seq<byte>>, nat)>
    decreases |p| - i
  {
    if |p| <= i || COMPRESSED <= p[i] as int then None
    else if p[i] == 0 then Some(([], i + 1))
    else
      var j := i + 1 + p[i] as int;
      if |p| < j then None
      else
        var rest := Parse(p, j);
        if rest == None then None else Some(([p[i + 1..j]] + rest.value.0, rest.value.1))
  }

  /** Where a name that may end in a pointer ends. */
  function NameEnd(p: seq<byte>, i: nat): Option<nat>
    decreases |p| - i
  {
    if |p| <= i then None
    else if p[i] == 0 then Some(i + 1)
    else if COMPRESSED <= p[i] as int then if i + 1 < |p| then Some(i + 2) else None
    else NameEnd(p, i + 1 + p[i] as int)
  }

  /** Labels a length byte can announce. */
  predicate Short(ls: seq<seq<byte>>) {
    forall k :: 0 <= k < |ls| ==> 1 <= |ls[k]| < COMPRESSED
  }

  /** Round trip: the name read back is the one written, and it ends where its encoding ends. */
  lemma {:induction false} ParseWire(pre: seq<byte>, ls: seq<seq<byte>>, post: seq<byte>)
    requires Short(ls)
    ensures Parse(pre + Wire(ls) + post, |pre|) == Some((ls, |pre + Wire(ls)|))
    ensures NameEnd(pre + Wire(ls) + post, |pre|) == Some(|pre + Wire(ls)|)
    decreases |ls|
  {
    var p := pre + Wire(ls) + post;
    if ls == [] {
      assert p[|pre|] == 0;
    } else {
      var l, rest := ls[0], ls[1..];
      var pre1 := pre + ([|l| as byte] + l);
      assert Wire(ls) == [|l| as byte] + l + Wire(rest);
      assert p == pre1 + Wire(rest) + post;
      ParseWire(pre1, rest, post);
      assert p[|pre|] == |l| as byte;
      assert p[|pre| + 1..|pre| + 1 + |l|] == l;
      assert ls == [l] + rest;
      assert |pre1| == |pre| + 1 + |l| && |pre1 + Wire(rest)| == |pre + Wire(ls)|;
    }
  }

  /** The encoding is two bytes longer than the name. */
  lemma {:induction false} WireLength(ls: seq<seq<byte>>)
    requires ls != [] && forall k :: 0 <= k < |ls| ==> |ls[k]| < 256
    ensures |Wire(ls)| == |Joined(ls)| + 2
  {
    if |ls| == 1 {
      assert Wire(ls[1..]) == [0];
    } else {
      WireLength(ls[1..]);
    }
  }

  // ----- dns_skip_name -----

  /** dns_skip_name from the length byte at i on. */
  function Skip(p: seq<byte>, i: nat): Option<nat>
    decreases |p| - i
  {
    if |p| <= i then None
    else if COMPRESSED <= p[i] as int then Some(i + 2)
    else
      var j := i + 1 + p[i] as int;
      if |p| <= j then None else if p[j] == 0 then Some(j + 1) else Skip(p, j)
  }

  /** The loop of dns_skip_name.  A UDP payload is shorter than 0xFFFF bytes, so offsets do not overflow. */
  method SkipName(p: seq<byte>, start: nat) returns (r: Option<nat>)
    requires |p| < 0xFFFF
    ensures r == Skip(p, start)
  {
    var offset := start;
    while true
      invariant Skip(p, offset) == Skip(p, start)
      decreases |p| - offset
    {
      if |p| <= offset { return None; }
      var n := p[offset] as int;
      offset := offset + 1;
      if COMPRESSED <= n { break; }
      if offset + n >= |p| { return None; }
      offset := offset + n;
      if p[offset] == 0 { break; }
    }
    r := Some(offset + 1);
  }

  /** On any name but the root, skipping finds the end; a pointer cut off by the end of the message is not noticed. */
  lemma {:induction false} SkipFindsEnd(p: seq<byte>, i: nat)
    requires i < |p| && p[i] != 0
    ensures NameEnd(p, i).Some? ==> Skip(p, i) == NameEnd(p, i)
    ensures NameEnd(p, i) == None ==> Skip(p, i) == None || Skip(p, i) == Some(|p| + 1)
    decreases |p| - i
  {
    if (p[i] as int) < COMPRESSED {
      var j := i + 1 + p[i] as int;
      assert NameEnd(p, i) == NameEnd(p, j);
      if j < |p| && p[j] != 0 { SkipFindsEnd(p, j); }
    }
  }

  /** The root name, a single zero byte, is taken for an empty label: skipping never stops right behind it. */
  lemma {:induction false} SkipBeyond(p: seq<byte>, i: nat)
    ensures Skip(p, i) == None || i + 2 <= Skip(p, i).value
    decreases |p| - i
  {
    if i < |p| && (p[i] as int) < COMPRESSED { SkipBeyond(p, i + 1 + p[i] as int); }
  }

  /** So dns_skip_name finds the end of a well-formed name if and only if that is not the root. */
  lemma {:induction false} SkipRightIff(p: seq<byte>, i: nat)
    requires NameEnd(p, i).Some?
    ensures Skip(p, i) == NameEnd(p, i) <==> p[i] != 0
  {
    if p[i] != 0 { SkipFindsEnd(p, i); } else { SkipBeyond(p, i); }
  }

  /**
   What dns_skip_name makes of any bytes: the end of the name, where a pointer at the very end of the message counts as
   whole.  The root is swallowed together with the name behind it.
   */
  lemma {:induction false} SkipIs(p: seq<byte>, i: nat)
    requires i < |p|
    ensures p[i] != 0 ==> Skip(p, i) == NameEnd(p + [1], i)
    ensures p[i] == 0 ==>
      Skip(p, i) == if i + 1 == |p| then None else if p[i + 1] == 0 then Some(i + 2) else NameEnd(p + [1], i + 1)
    decreases |p| - i
  {
    var w := p + [1];
    assert forall k :: 0 <= k < |p| ==> w[k] == p[k];
    var j := i + 1 + p[i] as int;
    if (p[i] as int) < COMPRESSED {
      if j < |p| {
        if p[j] != 0 { SkipIs(p, j); }
      } else if j == |p| {
        assert w[j] == 1 && NameEnd(w, j + 2) == None;
        assert NameEnd(w, j) == None;
      }
    }
  }

  /** A name that ends in a pointer: skipping stops behind the two bytes of the pointer. */
  lemma {:induction false} SkipPointer(pre: seq<byte>, ls: seq<seq<byte>>, a: byte, b: byte, post: seq<byte>)
    requires Short(ls) && COMPRESSED <= a as int
    ensures Skip(pre + Front(ls) + [a, b] + post, |pre|) == Some(|pre + Front(ls)| + 2)
    decreases |ls|
  {
    var p := pre + Front(ls) + [a, b] + post;
    if ls == [] {
      assert p[|pre|] == a;
    } else {
      var l, rest := ls[0], ls[1..];
      var pre1 := pre + ([|l| as byte] + l);
      assert p == pre1 + Front(rest) + [a, b] + post;
      SkipPointer(pre1, rest, a, b, post);
      assert p[|pre|] == |l| as byte;
      assert p[|pre1|] == (if rest == [] then a else |rest[0]| as byte);
    }
  }

  /** Labels without the closing zero byte. */
  function Front(ls: seq<seq<byte>>): seq<byte>
    requires Short(ls)
  {
    if ls == [] then [] else [|ls[0]| as byte] + ls[0] + Front(ls[1..])
  }

  // ----- the loop of dns_send -----

  /** Byte k of the encoded name: the name moved by one, with label lengths in front and in place of the dots. */
  function CodeAt(name: seq<byte>, k: nat): byte
    requires k <= |name| + 1 && |name| <= 255
  {
    if k == |name| + 1 then 0 else if 0 < k && name[k - 1] != DOT then name[k - 1] else LabelEnd(name, k) - k
  }

  /** pbuf_put_at of a length and pbuf_take_at of the label. */
  method PutLabel(p: array<byte>, at: nat, l: seq<byte>)
    requires |l| < 256 && at + 1 + |l| <= p.Length
    modifies p
    ensures p[at] == |l| && forall m :: at < m <= at + |l| ==> p[m] == l[m - at - 1]
    ensures forall m :: 0 <= m < p.Length && !(at <= m <= at + |l|) ==> p[m] == old(p[m])
  {
    p[at] := |l|;
    for k := 0 to |l|
      invariant p[at] == |l| && forall m :: at < m <= at + k ==> p[m] == l[m - at - 1]
      invariant forall m :: 0 <= m < p.Length && !(at <= m <= at + |l|) ==> p[m] == old(p[m])
    {
      p[at + 1 + k] := l[k];
    }
  }

  /** The end of one label, as the inner loop finds it. */
  method FindLabelEnd(name: seq<byte>, i: nat) returns (j: nat)
    requires i <= |name|
    ensures j == LabelEnd(name, i)
  {
    j := i;
    while j < |name| && name[j] != DOT
      invariant i <= j <= |name| && LabelEnd(name, i) == LabelEnd(name, j)
    {
      j := j + 1;
    }
  }

  /** A label is its characters behind its length. */
  lemma {:induction false} CodeOfLabel(name: seq<byte>, i: nat, k: nat)
    requires i <= |name| <= 255 && (0 < i ==> name[i - 1] == DOT) && i <= k <= LabelEnd(name, i)
    ensures CodeAt(name, k) == if k == i then LabelEnd(name, i) - i else name[k - 1]
  {
    if i < k { LabelHasNoDot(name, i, k - 1); }
  }

  /**
   The loop of dns_send: the host name in query format from offset at on; nothing else in the message changes.
   A name has at most 255 characters, so that each label's length fits its byte.
   */
  method EncodeName(name: seq<byte>, p: array<byte>, at: nat) returns (end: nat)
    requires |name| <= 255 && at + |name| + 2 <= p.Length < 0xFFFF
    modifies p
    ensures end == at + |name| + 2
    ensures forall m :: at <= m < end ==> p[m] == CodeAt(name, m - at)
    ensures forall m :: 0 <= m < p.Length && !(at <= m < end) ==> p[m] == old(p[m])
  {
    var i: nat, idx: nat := 0, at;
    while true
      invariant i <= |name| && idx == at + i && (0 < i ==> name[i - 1] == DOT)
      invariant forall m :: at <= m < idx ==> p[m] == CodeAt(name, m - at)
      invariant forall m :: 0 <= m < p.Length && !(at <= m < idx) ==> p[m] == old(p[m])
      decreases |name| - i
    {
      var j := FindLabelEnd(name, i);
      PutLabel(p, idx, name[i..j]);
      forall m | idx <= m <= idx + (j - i) ensures p[m] == CodeAt(name, m - at) { CodeOfLabel(name, i, m - at); }
      idx := idx + (j - i) + 1;
      if j == |name| { break; }
      i := j + 1;
    }
    p[idx] := 0;
    end := idx + 1;
  }

  lemma {:induction false} ShortLabels(name: seq<byte>, i: nat)
    requires i <= |name| <= 255
    ensures forall k :: 0 <= k < |Labels(name, i)| ==> |Labels(name, i)[k]| < 256
    decreases |name| - i
  {
    if LabelEnd(name, i) < |name| { ShortLabels(name, LabelEnd(name, i) + 1); }
  }

  /** What dns_send writes for the name from i on: its labels, each behind its length. */
  ghost function Encoded(name: seq<byte>, i: nat): seq<byte>
    requires i <= |name| <= 255
  {
    ShortLabels(name, i);
    Wire(Labels(name, i))
  }

  lemma {:induction false} EncodedStep(name: seq<byte>, i: nat)
    requires i <= |name| <= 255
    ensures var j := LabelEnd(name, i);
      Encoded(name, i) == [j - i] + name[i..j] + if j == |name| then [0] else Encoded(name, j + 1)
  {
    var j := LabelEnd(name, i);
    ShortLabels(name, i);
    if j < |name| {
      ShortLabels(name, j + 1);
      WireCons(name[i..j], Labels(name, j + 1));
    } else {
      assert name[i..j] == name[i..];
      assert Labels(name, i) == [name[i..j]] + [];
      WireCons(name[i..j], []);
    }
  }

  lemma {:induction false} WireCons(l: seq<byte>, rest: seq<seq<byte>>)
    requires |l| < 256 && forall k :: 0 <= k < |rest| ==> |rest[k]| < 256
    ensures Wire([l] + rest) == [|l| as byte] + l + Wire(rest)
  {
    assert ([l] + rest)[1..] == rest;
  }

  lemma {:induction false} EncodedLength(name: seq<byte>, i: nat)
    requires i <= |name| <= 255
    ensures |Encoded(name, i)| == |name| - i + 2
  {
    ShortLabels(name, i);
    WireLength(Labels(name, i));
    JoinedLabels(name, i);
  }

  lemma {:induction false} EncodedAt(name: seq<byte>, i: nat, k: nat)
    requires i <= |name| <= 255 && (0 < i ==> name[i - 1] == DOT) && i <= k <= |name| + 1
    ensures |Encoded(name, i)| == |name| - i + 2 && Encoded(name, i)[k - i] == CodeAt(name, k)
    decreases |name| - i
  {
    EncodedLength(name, i);
    EncodedStep(name, i);
    var j := LabelEnd(name, i);
    if k <= j {
      CodeOfLabel(name, i, k);
    } else if j < |name| {
      EncodedAt(name, j + 1, k);
    }
  }

  /** What the loop writes is the name's labels, each behind its length, and a zero byte. */
  lemma {:induction false} EncodedRight(name: seq<byte>, p: seq<byte>, at: nat)
    requires |name| <= 255 && at + |name| + 2 <= |p|
    requires forall m :: at <= m < at + |name| + 2 ==> p[m] == CodeAt(name, m - at)
    ensures p[at..at + |name| + 2] == Encoded(name, 0)
  {
    EncodedLength(name, 0);
    forall k | 0 <= k < |name| + 2 ensures p[at + k] == Encoded(name, 0)[k] { EncodedAt(name, 0, k); }
  }
}
