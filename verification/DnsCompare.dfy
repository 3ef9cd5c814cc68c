/** dns_compare_name (lib/lwip/src/core/dns.c): when is the name in a message taken for the one that was queried? */
module DnsCompare {
  import opened Bytes
  import opened Options
  import opened DnsNames

  // ----- text but for case -----

  /** lwip_tolower */
  function Lower(b: byte): byte {
    if 65 <= b <= 90 then b + 32 else b
  }

  /** Two characters are equal but for case exactly if they are equal or the same letter, one upper, one lower case. */
  lemma {:induction false} LowerIff(a: byte, b: byte)
    ensures Lower(a) == Lower(b) <==>
      a == b || ('A' as int <= a as int <= 'Z' as int && b as int - a as int == 'a' as int - 'A' as int)
      || ('A' as int <= b as int <= 'Z' as int && a as int - b as int == 'a' as int - 'A' as int)
  {
  }

  /** n characters of a from i and of b from j on are equal but for their case. */
  predicate SameText(a: seq<byte>, i: nat, b: seq<byte>, j: nat, n: nat)
    requires i + n <= |a| && j + n <= |b|
  {
    n == 0 || (SameText(a, i, b, j, n - 1) && Lower(a[i + n - 1]) == Lower(b[j + n - 1]))
  }

  lemma {:induction false} SameTextAt(a: seq<byte>, i: nat, b: seq<byte>, j: nat, n: nat, k: nat)
    requires i + n <= |a| && j + n <= |b| && k < n && SameText(a, i, b, j, n)
    ensures Lower(a[i + k]) == Lower(b[j + k])
  {
    if k < n - 1 { SameTextAt(a, i, b, j, n - 1, k); }
  }

  lemma {:induction false} SameTextSlice(a: seq<byte>, q: nat, p: seq<byte>, i: nat, j: nat, n: nat)
    requires i <= j <= |p| && n <= j - i && q + n <= |a|
    ensures SameText(a, q, p, i, n) == SameText(a, q, p[i..j], 0, n)
  {
    if 0 < n { SameTextSlice(a, q, p, i, j, n - 1); }
  }

  lemma {:induction false} SameTextMemory(a: seq<byte>, tail: seq<byte>, q: nat, b: seq<byte>, n: nat)
    requires n <= |b| && q + n <= |a|
    ensures SameText(a + tail, q, b, 0, n) == SameText(a, q, b, 0, n)
  {
    if 0 < n { SameTextMemory(a, tail, q, b, n - 1); }
  }

  lemma {:induction false} SameTextFrom(a: seq<byte>, q: nat, j: nat, b: seq<byte>, n: nat)
    requires q <= j <= |a| && n <= |b| && n <= j - q
    ensures SameText(a[q..j], 0, b, 0, n) == SameText(a, q, b, 0, n)
  {
    if 0 < n { SameTextFrom(a, q, j, b, n - 1); }
  }

  // ----- the loops -----

  /** What comparing one label shows; Beyond: the memory that holds the query ends first. */
  datatype LabelResult = Same | Different | Beyond

  /** The outcome of dns_compare_name; Overruns: it reads past the memory it was given. */
  datatype Compared = Differs | Ends(end: nat) | Overruns

  /** How many characters of the label are there in both the message and the query's memory. */
  function Common(query: seq<byte>, q: nat, p: seq<byte>, at: nat, n: nat): (m: nat)
    requires at <= |p|
    ensures m <= n && at + m <= |p| && (0 < m ==> q + m <= |query|)
    ensures m < n ==> at + m == |p| || |query| <= q + m
  {
    var room := if q <= |query| then |query| - q else 0;
    var there := if n <= |p| - at then n else |p| - at;
    if there <= room then there else room
  }

  function LabelCompared(query: seq<byte>, q: nat, p: seq<byte>, at: nat, n: nat): LabelResult
    requires at <= |p|
  {
    var m := Common(query, q, p, at, n);
    if 0 < m && !SameText(query, q, p, at, m) then Different
    else if m == n then Same
    else if at + m == |p| then Different
    else Beyond
  }

  /** dns_compare_name from the length byte at i and query character q on. */
  function Compare(query: seq<byte>, q: nat, p: seq<byte>, i: nat): Compared
    decreases |p| - i
  {
    if |p| <= i || COMPRESSED <= p[i] as int then Differs
    else
      var j := i + 1 + p[i] as int;
      match LabelCompared(query, q, p, i + 1, p[i] as int)
      case Different => Differs
      case Beyond => Overruns
      case Same => if |p| <= j then Differs else if p[j] == 0 then Ends(j + 1) else Compare(query, q + (j - i), p, j)
  }

  /**
   The loop of dns_compare_name.  query is the memory from the host name on: the name, a zero byte, and what is known to
   follow.  A UDP payload is shorter than 0xFFFF bytes, so offsets do not overflow.
   */
  method CompareName(query: seq<byte>, p: seq<byte>, start: nat) returns (r: Compared)
    requires |p| < 0xFFFF
    ensures r == Compare(query, 0, p, start)
  {
    var q: nat, offset: nat := 0, start;
    while true
      invariant Compare(query, q, p, offset) == Compare(query, 0, p, start)
      decreases |p| - offset
    {
      if |p| <= offset || COMPRESSED <= p[offset] as int { return Differs; }
      var n := p[offset] as int;
      var part := CompareLabel(query, q, p, offset + 1, n);
      if part == Beyond { return Overruns; }
      if part == Different { return Differs; }
      q, offset := q + n + 1, offset + 1 + n;
      if |p| <= offset { return Differs; }
      if p[offset] == 0 { break; }
    }
    r := Ends(offset + 1);
  }

  /** The inner loop. */
  method CompareLabel(query: seq<byte>, q: nat, p: seq<byte>, at: nat, n: nat) returns (r: LabelResult)
    requires at <= |p|
    ensures r == LabelCompared(query, q, p, at, n)
  {
    ghost var m := Common(query, q, p, at, n);
    for k := 0 to n
      invariant k <= m && (0 < k ==> SameText(query, q, p, at, k))
    {
      if |p| <= at + k { return Different; }
      if |query| <= q + k { return Beyond; }
      if Lower(query[q + k]) != Lower(p[at + k]) {
        if SameText(query, q, p, at, m) { SameTextAt(query, q, p, at, m, k); }
        return Different;
      }
      assert SameText(query, q, p, at, k);
    }
    r := Same;
  }

  // ----- in terms of labels -----

  /** Label after label agrees with the query, from q on; the character between two labels is not looked at. */
  predicate Matches(query: seq<byte>, q: nat, ls: seq<seq<byte>>)
    decreases |ls|
  {
    ls == [] ||
    (&& q + |ls[0]| <= |query| && SameText(query, q, ls[0], 0, |ls[0]|)
     && Matches(query, q + |ls[0]| + 1, ls[1..]))
  }

  /** The labels agree as far as the query's memory goes, and go on.  Nothing is read for an empty label. */
  predicate RunsOver(query: seq<byte>, q: nat, ls: seq<seq<byte>>)
    decreases |ls|
  {
    && ls != []
    && if ls[0] == [] then RunsOver(query, q + 1, ls[1..])
       else if q + |ls[0]| <= |query|
       then SameText(query, q, ls[0], 0, |ls[0]|) && RunsOver(query, q + |ls[0]| + 1, ls[1..])
       else |query| <= q || SameText(query, q, ls[0], 0, |query| - q)
  }

  /** One label, taken out of the message. */
  lemma {:induction false} LabelIs(query: seq<byte>, q: nat, p: seq<byte>, i: nat, j: nat)
    requires i < j <= |p|
    ensures LabelCompared(query, q, p, i, j - i) == Same <==>
      q + (j - i) <= |query| && SameText(query, q, p[i..j], 0, j - i)
    ensures LabelCompared(query, q, p, i, j - i) == Beyond <==>
      |query| < q + (j - i) && (|query| <= q || SameText(query, q, p[i..j], 0, |query| - q))
  {
    var m := Common(query, q, p, i, j - i);
    if 0 < m { SameTextSlice(query, q, p, i, j, m); }
  }

  /** What dns_compare_name makes of a well-formed name that is not the root. */
  lemma {:induction false} CompareIs(query: seq<byte>, q: nat, p: seq<byte>, i: nat)
    requires i < |p| && p[i] != 0
    ensures Parse(p, i) == None ==> !Compare(query, q, p, i).Ends?
    ensures Parse(p, i).Some? ==>
      var (ls, end) := Parse(p, i).value;
      Compare(query, q, p, i)
        == if Matches(query, q, ls) then Ends(end) else if RunsOver(query, q, ls) then Overruns else Differs
    decreases |p| - i
  {
    var j := i + 1 + p[i] as int;
    if (p[i] as int) < COMPRESSED && j < |p| {
      LabelIs(query, q, p, i + 1, j);
      if p[j] != 0 { CompareIs(query, q + (j - i), p, j); } else { assert Parse(p, j) == Some(([], j + 1)); }
      if Parse(p, i).Some? {
        assert Parse(p, i).value.0[1..] == Parse(p, j).value.0 && Parse(p, i).value.0[0] == p[i + 1..j];
      }
    }
  }

  /**
   The labels there are to read from i on, whatever the message: up to a zero byte, a pointer or the end of the message,
   which may cut the last one short.  A zero byte right at i is taken for an empty label.
   */
  function Readable(p: seq<byte>, i: nat): seq<seq<byte>>
    decreases |p| - i
  {
    if |p| <= i || COMPRESSED <= p[i] as int then []
    else
      var j := i + 1 + p[i] as int;
      if |p| <= j then [p[i + 1..]] else [p[i + 1..j]] + if p[j] == 0 then [] else Readable(p, j)
  }

  /** For a well-formed name that is not the root these are its labels. */
  lemma {:induction false} ReadableParsed(p: seq<byte>, i: nat)
    requires Parse(p, i).Some? && p[i] != 0
    ensures Readable(p, i) == Parse(p, i).value.0
    decreases |p| - i
  {
    var j := i + 1 + p[i] as int;
    if p[j] != 0 { ReadableParsed(p, j); } else { assert Parse(p, j) == Some(([], j + 1)); }
  }

  /** A label cut short is followed over the end of the query's memory just as a label of the length that is there. */
  lemma {:induction false} CutShort(query: seq<byte>, q: nat, p: seq<byte>, at: nat, n: nat)
    requires at < |p| <= at + n
    ensures LabelCompared(query, q, p, at, n) == Beyond <==>
      |query| < q + |p[at..]| && (|query| <= q || SameText(query, q, p[at..], 0, |query| - q))
  {
    assert p[at..] == p[at..|p|];
    LabelIs(query, q, p, at, |p|);
  }

  lemma {:induction false} RunsOverCons(query: seq<byte>, q: nat, l: seq<byte>, rest: seq<seq<byte>>)
    ensures RunsOver(query, q, [l] + rest) <==>
      if l == [] then RunsOver(query, q + 1, rest)
      else if q + |l| <= |query| then SameText(query, q, l, 0, |l|) && RunsOver(query, q + |l| + 1, rest)
      else |query| <= q || SameText(query, q, l, 0, |query| - q)
  {
    assert ([l] + rest)[1..] == rest;
  }

  lemma {:induction false} LeavesInLast(query: seq<byte>, q: nat, p: seq<byte>, i: nat)
    requires i < |p| <= i + 1 + p[i] as int && (p[i] as int) < COMPRESSED
    ensures Compare(query, q, p, i) == Overruns <==> RunsOver(query, q, Readable(p, i))
  {
    var l := p[i + 1..];
    if l != [] { CutShort(query, q, p, i + 1, p[i] as int); }
    RunsOverCons(query, q, l, []);
    assert Readable(p, i) == [l] + [];
  }

  lemma {:induction false} CompareStep(query: seq<byte>, q: nat, p: seq<byte>, i: nat, j: nat)
    requires i < |p| && (p[i] as int) < COMPRESSED && j == i + 1 + p[i] as int < |p|
    ensures Compare(query, q, p, i) == Overruns <==>
      var part := LabelCompared(query, q, p, i + 1, j - i - 1);
      part == Beyond || (part == Same && p[j] != 0 && Compare(query, q + (j - i), p, j) == Overruns)
  {
  }

  lemma {:induction false} FirstPart(query: seq<byte>, q: nat, p: seq<byte>, i: nat, j: nat)
    requires i < j <= |p|
    ensures var l, part := p[i + 1..j], LabelCompared(query, q, p, i + 1, j - i - 1);
      && (part == Same <==> l == [] || (q + |l| <= |query| && SameText(query, q, l, 0, |l|)))
      && (part == Beyond <==>
          l != [] && |query| < q + |l| && (|query| <= q || SameText(query, q, l, 0, |query| - q)))
  {
    if i + 1 < j { LabelIs(query, q, p, i + 1, j); }
  }

  lemma {:induction false} RunsOverFirst(query: seq<byte>, q: nat, p: seq<byte>, i: nat, j: nat, rest: seq<seq<byte>>)
    requires i < j <= |p|
    ensures RunsOver(query, q, [p[i + 1..j]] + rest) <==>
      var part := LabelCompared(query, q, p, i + 1, j - i - 1);
      part == Beyond || (part == Same && RunsOver(query, q + (j - i), rest))
  {
    var l, q' := p[i + 1..j], q + (j - i);
    FirstPart(query, q, p, i, j);
    assert q + |l| + 1 == q';
    RunsOverCons(query, q, l, rest);
  }

  lemma {:induction false} ReadableStep(p: seq<byte>, i: nat, j: nat)
    requires i < |p| && (p[i] as int) < COMPRESSED && j == i + 1 + p[i] as int < |p|
    ensures Readable(p, i) == [p[i + 1..j]] + if p[j] == 0 then [] else Readable(p, j)
  {
  }

  /** On any message, the query's memory is left if and only if the labels there are to read run over it. */
  lemma {:induction false} LeavesMemoryIff(query: seq<byte>, q: nat, p: seq<byte>, i: nat)
    ensures Compare(query, q, p, i) == Overruns <==> RunsOver(query, q, Readable(p, i))
    decreases |p| - i
  {
    if i < |p| && (p[i] as int) < COMPRESSED {
      var j := i + 1 + p[i] as int;
      if |p| <= j {
        LeavesInLast(query, q, p, i);
      } else {
        if p[j] != 0 { LeavesMemoryIff(query, q + (j - i), p, j); }
        CompareStep(query, q, p, i, j);
        ReadableStep(p, i, j);
        RunsOverFirst(query, q, p, i, j, if p[j] == 0 then [] else Readable(p, j));
      }
    }
  }

  /** The root is taken for an empty label, and the name behind it for the rest. */
  lemma {:induction false} RootTakesNext(query: seq<byte>, q: nat, p: seq<byte>, i: nat)
    requires i < |p| && p[i] == 0
    ensures Compare(query, q, p, i) ==
      if i + 1 == |p| then Differs
      else if p[i + 1] == 0 then Ends(i + 2)
      else if RunsOver(query, q + 1, Readable(p, i + 1)) then Overruns
      else if Parse(p, i + 1).Some? && Matches(query, q + 1, Parse(p, i + 1).value.0) then Ends(Parse(p, i + 1).value.1)
      else Differs
  {
    if i + 1 < |p| && p[i + 1] != 0 {
      CompareIs(query, q + 1, p, i + 1);
      LeavesMemoryIff(query, q + 1, p, i + 1);
    }
  }

  /** So a root question before another zero byte is accepted for every host name, and with the wrong end. */
  lemma {:induction false} RootAccepted(query: seq<byte>, pre: seq<byte>, post: seq<byte>)
    ensures var p := pre + [0, 0] + post;
      Parse(p, |pre|) == Some(([], |pre| + 1)) && Compare(query, 0, p, |pre|) == Ends(|pre| + 2)
  {
    var p := pre + [0, 0] + post;
    assert p[|pre|] == 0 && p[|pre| + 1] == 0;
  }

  // ----- what was sent is accepted -----

  /** The query agrees with its own labels. */
  lemma {:induction false} MatchesLabels(query: seq<byte>, name: seq<byte>, i: nat)
    requires i <= |name| && name <= query
    ensures Matches(query, i, Labels(name, i))
    decreases |name| - i
  {
    var j := LabelEnd(name, i);
    SameTextSelf(query, i, name, i, j, j - i);
    if j < |name| {
      MatchesLabels(query, name, j + 1);
      assert Labels(name, i)[1..] == Labels(name, j + 1);
    } else {
      assert name[i..j] == name[i..] && Labels(name, i)[1..] == [];
    }
  }

  lemma {:induction false} SameTextSelf(query: seq<byte>, q: nat, name: seq<byte>, i: nat, j: nat, n: nat)
    requires q == i <= j <= |name| && n <= j - i && name <= query
    ensures SameText(query, q, name[i..j], 0, n)
  {
    if 0 < n { SameTextSelf(query, q, name, i, j, n - 1); }
  }

  /**
   Round trip through a message: both readers accept what dns_send writes for a name with labels of 1 to 63 (even 191)
   characters, and stop right behind it, |name| + 2 bytes on, without a look at the memory behind the name.
   */
  lemma {:induction false} NameRoundTrip(name: seq<byte>, tail: seq<byte>, pre: seq<byte>, post: seq<byte>)
    requires Short(Labels(name, 0))
    ensures var p := pre + Wire(Labels(name, 0)) + post;
      && Compare(name + tail, 0, p, |pre|) == Ends(|pre| + |name| + 2)
      && Skip(p, |pre|) == Some(|pre| + |name| + 2)
  {
    var ls := Labels(name, 0);
    var p := pre + Wire(ls) + post;
    ParseWire(pre, ls, post);
    WireLength(ls);
    JoinedLabels(name, 0);
    assert name[0..] == name;
    assert p[|pre|] == Wire(ls)[0] == |ls[0]| as byte;
    MatchesLabels(name + tail, name, 0);
    CompareIs(name + tail, 0, p, |pre|);
    SkipFindsEnd(p, |pre|);
  }

  /** So such a name, once sent, is accepted and skipped to its end wherever it stands in a message. */
  lemma {:induction false} SentNameAccepted(name: seq<byte>, tail: seq<byte>, p: seq<byte>, at: nat)
    requires |name| <= 255 && at + |name| + 2 <= |p| && Short(Labels(name, 0))
    requires forall m :: at <= m < at + |name| + 2 ==> p[m] == CodeAt(name, m - at)
    ensures Compare(name + tail, 0, p, at) == Ends(at + |name| + 2) && Skip(p, at) == Some(at + |name| + 2)
  {
    var end := at + |name| + 2;
    EncodedRight(name, p, at);
    EncodedLength(name, 0);
    assert p == p[..at] + Encoded(name, 0) + p[end..];
    NameRoundTrip(name, tail, p[..at], p[end..]);
  }

  // ----- what else is accepted -----

  /** The same DNS name: label by label equal but for case. */
  predicate SameName(xs: seq<seq<byte>>, ys: seq<seq<byte>>)
    decreases |xs|
  {
    if xs == [] then ys == []
    else
      && ys != [] && |xs[0]| == |ys[0]| && SameText(xs[0], 0, ys[0], 0, |xs[0]|)
      && SameName(xs[1..], ys[1..])
  }

  /** The name has a dot wherever one of these labels ends and another follows. */
  predicate DotsBetween(name: seq<byte>, q: nat, ls: seq<seq<byte>>)
    decreases |ls|
  {
    |ls| <= 1 || (q + |ls[0]| < |name| && name[q + |ls[0]|] == DOT && DotsBetween(name, q + |ls[0]| + 1, ls[1..]))
  }

  /** No label has a dot in it. */
  predicate Undotted(ls: seq<seq<byte>>) {
    forall k :: 0 <= k < |ls| ==> DOT !in ls[k]
  }

  /** Equal text has dots in the same places. */
  lemma {:induction false} NoDotHere(name: seq<byte>, q: nat, l: seq<byte>, k: nat)
    requires q + |l| <= |name| && SameText(name, q, l, 0, |l|) && k < |l|
    ensures name[q + k] == DOT <==> l[k] == DOT
  {
    SameTextAt(name, q, l, 0, |l|, k);
  }

  /** A label without dots that agrees with the name up to a dot or its end is the name's label there. */
  lemma {:induction false} LabelEndIs(name: seq<byte>, q: nat, k: nat, n: nat)
    requires q + k <= q + n <= |name| && (q + n < |name| ==> name[q + n] == DOT)
    requires forall m :: q + k <= m < q + n ==> name[m] != DOT
    ensures LabelEnd(name, q + k) == q + n
    decreases n - k
  {
    if k < n { LabelEndIs(name, q, k + 1, n); }
  }

  lemma {:induction false} FirstLabelIs(name: seq<byte>, q: nat, l: seq<byte>)
    requires q + |l| <= |name| && SameText(name, q, l, 0, |l|) && DOT !in l
    requires (q + |l| < |name| ==> name[q + |l|] == DOT)
    ensures LabelEnd(name, q) == q + |l|
  {
    forall m | q <= m < q + |l| ensures name[m] != DOT {
      NoDotHere(name, q, l, m - q);
      assert l[m - q] in l;
    }
    LabelEndIs(name, q, 0, |l|);
  }

  lemma {:induction false} FirstLabelUndotted(name: seq<byte>, q: nat, l: seq<byte>)
    requires q <= |name| && LabelEnd(name, q) == q + |l| && SameText(name, q, l, 0, |l|)
    ensures DOT !in l
  {
    forall k | 0 <= k < |l| ensures l[k] != DOT {
      NoDotHere(name, q, l, k);
      LabelHasNoDot(name, q, q + k);
    }
  }

  /**
   A name in a message is the queried one if and only if dns_compare_name accepts its labels, it is as long as the
   queried one, the queried one has dots where its labels end, and its labels have none.  The last three are not
   checked.
   */
  lemma {:induction false} SameNameIff(name: seq<byte>, tail: seq<byte>, q: nat, ls: seq<seq<byte>>)
    requires ls != [] && q <= |name|
    ensures SameName(Labels(name, q), ls) <==>
      Matches(name + tail, q, ls) && q + |Joined(ls)| == |name| && DotsBetween(name, q, ls) && Undotted(ls)
  {
    if SameName(Labels(name, q), ls) { SameNameThen(name, tail, q, ls); }
    if Matches(name + tail, q, ls) && q + |Joined(ls)| == |name| && DotsBetween(name, q, ls) && Undotted(ls) {
      ThenSameName(name, tail, q, ls);
    }
  }

  lemma {:induction false} LabelsCases(name: seq<byte>, q: nat)
    requires q <= |name|
    ensures var j, xs := LabelEnd(name, q), Labels(name, q);
      && xs[0] == name[q..j] && xs[1..] == if j == |name| then [] else Labels(name, j + 1)
  {
    var j := LabelEnd(name, q);
    if j == |name| { assert name[q..j] == name[q..]; }
  }

  lemma {:induction false} SameNameThen(name: seq<byte>, tail: seq<byte>, q: nat, ls: seq<seq<byte>>)
    requires ls != [] && q <= |name| && SameName(Labels(name, q), ls)
    ensures Matches(name + tail, q, ls) && q + |Joined(ls)| == |name| && DotsBetween(name, q, ls) && Undotted(ls)
    decreases |ls|
  {
    var l, rest, j := ls[0], ls[1..], LabelEnd(name, q);
    LabelsCases(name, q);
    SameTextFrom(name, q, j, l, |l|);
    SameTextMemory(name, tail, q, l, |l|);
    FirstLabelUndotted(name, q, l);
    if j < |name| {
      SameNameThen(name, tail, j + 1, rest);
    }
  }

  lemma {:induction false} ThenSameName(name: seq<byte>, tail: seq<byte>, q: nat, ls: seq<seq<byte>>)
    requires ls != [] && q <= |name|
    requires Matches(name + tail, q, ls) && q + |Joined(ls)| == |name| && DotsBetween(name, q, ls) && Undotted(ls)
    ensures SameName(Labels(name, q), ls)
    decreases |ls|
  {
    var l, rest := ls[0], ls[1..];
    assert 1 < |ls| ==> |Joined(ls)| == |l| + 1 + |Joined(rest)|;
    FirstSame(name, tail, q, l);
    if rest != [] { ThenSameName(name, tail, q + |l| + 1, rest); }
    SameNameCons(Labels(name, q), ls);
  }

  lemma {:induction false} FirstSame(name: seq<byte>, tail: seq<byte>, q: nat, l: seq<byte>)
    requires q + |l| <= |name| && SameText(name + tail, q, l, 0, |l|) && DOT !in l
    requires q + |l| < |name| ==> name[q + |l|] == DOT
    ensures var xs := Labels(name, q);
      && |xs[0]| == |l| && SameText(xs[0], 0, l, 0, |l|)
      && xs[1..] == if q + |l| == |name| then [] else Labels(name, q + |l| + 1)
  {
    assert LabelEnd(name, q) == q + |l| && SameText(name[q..q + |l|], 0, l, 0, |l|) by {
      SameTextMemory(name, tail, q, l, |l|);
      FirstLabelIs(name, q, l);
      SameTextFrom(name, q, q + |l|, l, |l|);
    }
    LabelsCases(name, q);
  }

  lemma {:induction false} SameNameCons(xs: seq<seq<byte>>, ys: seq<seq<byte>>)
    requires xs != [] && ys != [] && |xs[0]| == |ys[0]| && SameText(xs[0], 0, ys[0], 0, |xs[0]|)
    requires SameName(xs[1..], ys[1..])
    ensures SameName(xs, ys)
  {
  }

  /** What dns_compare_name ought to return for the well-formed name at i. */
  function Right(name: seq<byte>, p: seq<byte>, i: nat): Compared
    requires Parse(p, i).Some?
  {
    if SameName(Labels(name, 0), Parse(p, i).value.0) then Ends(Parse(p, i).value.1) else Differs
  }

  /**
   It returns that if and only if: for the root, nothing follows, or labels that neither agree with the query from its
   second character on nor run over it; for any other name, its labels do not agree with the query and the query's
   memory is not left, or they agree and the three conditions it does not check hold.
   */
  lemma {:induction false} CompareRightIff(name: seq<byte>, tail: seq<byte>, p: seq<byte>, i: nat)
    requires Parse(p, i).Some?
    ensures p[i] == 0 ==>
      (Compare(name + tail, 0, p, i) == Right(name, p, i) <==>
       || i + 1 == |p|
       || (&& p[i + 1] != 0 && !RunsOver(name + tail, 1, Readable(p, i + 1))
           && (Parse(p, i + 1).Some? ==> !Matches(name + tail, 1, Parse(p, i + 1).value.0))))
    ensures p[i] != 0 ==>
      var ls := Parse(p, i).value.0;
      && ls != []
      && (Compare(name + tail, 0, p, i) == Right(name, p, i) <==>
          if Matches(name + tail, 0, ls) then |Joined(ls)| == |name| && DotsBetween(name, 0, ls) && Undotted(ls)
          else !RunsOver(name + tail, 0, ls))
  {
    var ls := Parse(p, i).value.0;
    if p[i] == 0 {
      if i + 1 < |p| && p[i + 1] != 0 {
        assert Compare(name + tail, 0, p, i) == Compare(name + tail, 1, p, i + 1);
        CompareIs(name + tail, 1, p, i + 1);
        LeavesMemoryIff(name + tail, 1, p, i + 1);
      }
    } else {
      CompareIs(name + tail, 0, p, i);
      SameNameIff(name, tail, 0, ls);
    }
  }

  /** Any leading labels of an accepted name are accepted in its place. */
  lemma {:induction false} PrefixAccepted(query: seq<byte>, q: nat, ls: seq<seq<byte>>, k: nat)
    requires Matches(query, q, ls) && k <= |ls|
    ensures Matches(query, q, ls[..k])
    decreases |ls|
  {
    if 0 < k {
      PrefixAccepted(query, q + |ls[0]| + 1, ls[1..], k - 1);
      assert ls[..k][1..] == ls[1..][..k - 1];
    }
  }

  /** On message bytes: "a-b" accepts the labels "a", "b"; "a.b" accepts "a" alone, and the one label "a.b". */
  lemma {:induction false} AcceptsOthers(tail: seq<byte>)
    ensures Compare([97, 45, 98] + tail, 0, [1, 97, 1, 98, 0], 0) == Ends(5)
    ensures Right([97, 45, 98], [1, 97, 1, 98, 0], 0) == Differs
    ensures Compare([97, 46, 98] + tail, 0, [1, 97, 0], 0) == Ends(3) && Right([97, 46, 98], [1, 97, 0], 0) == Differs
    ensures Compare([97, 46, 98] + tail, 0, [3, 97, 46, 98, 0], 0) == Ends(5)
    ensures Right([97, 46, 98], [3, 97, 46, 98, 0], 0) == Differs
  {
    AcceptsSeparator(tail);
    AcceptsShorter(tail);
    AcceptsDotted(tail);
  }

  lemma {:induction false} AcceptsSeparator(tail: seq<byte>)
    ensures Compare([97, 45, 98] + tail, 0, [1, 97, 1, 98, 0], 0) == Ends(5)
    ensures Right([97, 45, 98], [1, 97, 1, 98, 0], 0) == Differs
  {
    var q, p := [97, 45, 98] + tail, [1, 97, 1, 98, 0];
    assert Parse(p, 0) == Some(([[97], [98]], 5)) by {
      WireCons([98], []);
      WireCons([97], [[98]]);
      assert [] + Wire([[97], [98]]) + [] == p;
      ParseWire([], [[97], [98]], []);
    }
    assert SameText(q, 0, p, 1, 0) && SameText(q, 2, p, 3, 0);
    assert Compare(q, 2, p, 2) == Ends(5);
    SameNameIff([97, 45, 98], tail, 0, [[97], [98]]);
  }

  lemma {:induction false} AcceptsShorter(tail: seq<byte>)
    ensures Compare([97, 46, 98] + tail, 0, [1, 97, 0], 0) == Ends(3) && Right([97, 46, 98], [1, 97, 0], 0) == Differs
  {
    var q, p := [97, 46, 98] + tail, [1, 97, 0];
    assert Parse(p, 0) == Some(([[97]], 3)) by {
      WireCons([97], []);
      assert [] + Wire([[97]]) + [] == p;
      ParseWire([], [[97]], []);
    }
    assert SameText(q, 0, p, 1, 0);
    SameNameIff([97, 46, 98], tail, 0, [[97]]);
  }

  lemma {:induction false} AcceptsDotted(tail: seq<byte>)
    ensures Compare([97, 46, 98] + tail, 0, [3, 97, 46, 98, 0], 0) == Ends(5)
    ensures Right([97, 46, 98], [3, 97, 46, 98, 0], 0) == Differs
  {
    var q, p := [97, 46, 98] + tail, [3, 97, 46, 98, 0];
    assert Parse(p, 0) == Some(([[97, 46, 98]], 5)) by {
      WireCons([97, 46, 98], []);
      assert [] + Wire([[97, 46, 98]]) + [] == p;
      ParseWire([], [[97, 46, 98]], []);
    }
    assert SameText(q, 0, p, 1, 0) && SameText(q, 0, p, 1, 1) && SameText(q, 0, p, 1, 2);
    SameNameIff([97, 46, 98], tail, 0, [[97, 46, 98]]);
    assert [97, 46, 98][1] == DOT;
  }

  // ----- reads behind the host name -----

  /** Some label has a character. */
  predicate Something(ls: seq<seq<byte>>) {
    exists k :: 0 <= k < |ls| && ls[k] != []
  }

  /**
   The labels agree with the rest of the text and then go on: with a later label, or behind a zero byte in the label
   that reaches over the end of the text.
   */
  predicate GoesOn(name: seq<byte>, q: nat, ls: seq<seq<byte>>)
    requires q <= |name|
    decreases |ls|
  {
    && ls != []
    && var l, n := ls[0], |name| - q;
       if |l| < n then SameText(name, q, l, 0, |l|) && GoesOn(name, q + |l| + 1, ls[1..])
       else SameText(name, q, l, 0, n) && (n < |l| ==> l[n] == 0) && (n + 1 < |l| || Something(ls[1..]))
  }

  /** Once the memory is used up, any character runs over it. */
  lemma {:induction false} NothingLeft(query: seq<byte>, q: nat, ls: seq<seq<byte>>)
    requires |query| <= q
    ensures RunsOver(query, q, ls) <==> Something(ls)
    decreases |ls|
  {
    if ls != [] && ls[0] == [] {
      NothingLeft(query, q + 1, ls[1..]);
      if Something(ls) {
        var k :| 0 <= k < |ls| && ls[k] != [];
        assert ls[1..][k - 1] == ls[k];
      }
      if Something(ls[1..]) {
        var k :| 0 <= k < |ls[1..]| && ls[1..][k] != [];
        assert ls[k + 1] == ls[1..][k];
      }
    }
  }

  /** The terminating zero agrees with a zero byte only. */
  lemma {:induction false} AtTerminator(name: seq<byte>, q: nat, l: seq<byte>)
    requires q <= |name| < q + |l|
    ensures SameText(name + [0], q, l, 0, |name| + 1 - q) <==> SameText(name, q, l, 0, |name| - q) && l[|name| - q] == 0
  {
    SameTextMemory(name, [0], q, l, |name| - q);
    assert (name + [0])[|name|] == 0;
  }

  /** Labels run over the terminating zero of the host name if and only if they agree with the whole text and go on. */
  lemma {:induction false} OverrunsIff(name: seq<byte>, q: nat, ls: seq<seq<byte>>)
    requires q <= |name|
    ensures RunsOver(name + [0], q, ls) <==> GoesOn(name, q, ls)
    decreases |ls|
  {
    if ls != [] {
      var l, rest, query := ls[0], ls[1..], name + [0];
      if q + |l| < |name| {
        SameTextMemory(name, [0], q, l, |l|);
        assert l == [] ==> SameText(name, q, l, 0, 0);
        OverrunsIff(name, q + |l| + 1, rest);
      } else {
        NothingLeft(query, q + |l| + 1, rest);
        if q + |l| == |name| { SameTextMemory(name, [0], q, l, |l|); } else { AtTerminator(name, q, l); }
      }
    }
  }

  /** On any message, with the memory of the host name alone. */
  lemma {:induction false} CompareOverrunsIff(name: seq<byte>, p: seq<byte>, i: nat)
    ensures Compare(name + [0], 0, p, i) == Overruns <==> GoesOn(name, 0, Readable(p, i))
  {
    LeavesMemoryIff(name + [0], 0, p, i);
    OverrunsIff(name, 0, Readable(p, i));
  }

  /** Three messages for the host name "a": a label with a zero byte, a message cut off, and the root before a label. */
  lemma {:induction false} OverrunExamples()
    ensures Compare([97, 0], 0, [3, 97, 0, 5, 0], 0) == Overruns
    ensures Compare([97, 0], 0, [1, 97, 1, 98], 0) == Overruns && Parse([1, 97, 1, 98], 0) == None
    ensures Compare([97, 0], 0, [0, 2, 0, 98, 0], 0) == Overruns
  {
    ZeroInLabel();
    CutOff();
    RootBeforeLabel();
  }

  lemma {:induction false} ZeroInLabel()
    ensures Compare([97, 0], 0, [3, 97, 0, 5, 0], 0) == Overruns
  {
    var p := [3, 97, 0, 5, 0];
    assert p[1..4] == [97, 0, 5];
    assert SameText([97], 0, [97, 0, 5], 0, 0);
    CompareOverrunsIff([97], p, 0);
    assert [97] + [0] == [97, 0];
  }

  lemma {:induction false} CutOff()
    ensures Compare([97, 0], 0, [1, 97, 1, 98], 0) == Overruns && Parse([1, 97, 1, 98], 0) == None
  {
    var p := [1, 97, 1, 98];
    assert Parse(p, 4) == None;
    assert Parse(p, 2) == None;
    var rest := Readable(p, 2);
    assert rest == [p[3..]] && rest[0] != [];
    assert Readable(p, 0)[1..] == rest && Something(rest);
    assert p[1..2] == [97] && SameText([97], 0, [97], 0, 0);
    CompareOverrunsIff([97], p, 0);
    assert [97] + [0] == [97, 0];
  }

  lemma {:induction false} RootBeforeLabel()
    ensures Compare([97, 0], 0, [0, 2, 0, 98, 0], 0) == Overruns
  {
    var p := [0, 2, 0, 98, 0];
    var rest := Readable(p, 1);
    assert rest == [p[2..4]] && rest[0] == [0, 98];
    assert Readable(p, 0)[1..] == rest;
    assert SameText([97], 0, Readable(p, 0)[0], 0, 0) && SameText([97], 1, rest[0], 0, 0);
    CompareOverrunsIff([97], p, 0);
    assert [97] + [0] == [97, 0];
  }
}
