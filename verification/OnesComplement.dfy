/**
 One's-complement sums of 16-bit words, section 2 of RFC 1071, in either host byte order.

 The arithmetic is that of the numbers modulo 65535 in which 0 keeps a class of its own:
 a sum is 0 only when every summand is.
 */
module OnesComplement {
  import opened Bytes

  const M := 65535

  /** Byte order of the host that reads 16-bit words from memory. */
  datatype Order = Little | Big

  function Word(o: Order, b0: byte, b1: byte): (w: nat)
    ensures w <= M
  {
    if o.Little? then b0 + 256 * b1 else 256 * b0 + b1
  }

  /** One's-complement addition: the carry out of the top goes back in at the bottom. */
  function Add(a: nat, b: nat): (r: nat)
    requires a <= M && b <= M
    ensures r <= M
  {
    if a + b > M then a + b - M else a + b
  }

  /** The reference: one's-complement sum of the 16-bit words, the last odd byte padded with zero. */
  function RefSum(o: Order, s: seq<byte>): (r: nat)
    ensures r <= M
  {
    if |s| == 0 then 0
    else if |s| == 1 then Word(o, s[0], 0)
    else Add(Word(o, s[0], s[1]), RefSum(o, s[2..]))
  }

  /** The same words summed without any carry handling. */
  function PlainSum(o: Order, s: seq<byte>): nat {
    if |s| == 0 then 0
    else if |s| == 1 then Word(o, s[0], 0)
    else Word(o, s[0], s[1]) + PlainSum(o, s[2..])
  }

  /** The 16-bit representative of a number: carries are added back until none is left. */
  function Rep(a: nat): (r: nat)
    ensures r <= M
  {
    if a <= M then a else Rep(a - M)
  }

  /** How many carries that takes. */
  function Carries(a: nat): nat {
    if a <= M then 0 else 1 + Carries(a - M)
  }

  /** Equal as one's-complement numbers: congruent modulo 65535, with 0 in a class of its own. */
  predicate Same(a: nat, b: nat) {
    Rep(a) == Rep(b)
  }

  lemma {:induction false} RepCarries(a: nat)
    ensures a == Rep(a) + Carries(a) * M && (Rep(a) == 0 <==> a == 0)
  {
    if M < a { RepCarries(a - M); }
  }

  lemma {:induction false} RepShift(a: nat, k: nat)
    requires 0 < a
    ensures Rep(a + k * M) == Rep(a)
  {
    if 0 < k {
      assert a + k * M - M == a + (k - 1) * M;
      RepShift(a, k - 1);
    }
  }

  /** Within 16 bits the representative is unique. */
  lemma {:induction false} SameUnique(a: nat, b: nat)
    requires Same(a, b) && a <= M && b <= M
    ensures a == b
  {
  }

  /** Differing by a multiple of 65535, neither or both zero, is the same number. */
  lemma {:induction false} SameBy(a: nat, b: nat, k: int)
    requires a == b + k * M && (a == 0 <==> b == 0)
    ensures Same(a, b)
  {
    if 0 <= k && 0 < b { RepShift(b, k); } else if k < 0 { RepShift(a, -k); }
  }

  /** And the other way round. */
  lemma {:induction false} SameDiffers(a: nat, b: nat) returns (k: int)
    requires Same(a, b)
    ensures a == b + k * M && (a == 0 <==> b == 0)
  {
    RepCarries(a);
    RepCarries(b);
    k := Carries(a) - Carries(b);
  }

  lemma {:induction false} SameAdd(a: nat, b: nat, c: nat, d: nat)
    requires Same(a, c) && Same(b, d)
    ensures Same(a + b, c + d)
  {
    var k := SameDiffers(a, c);
    var m := SameDiffers(b, d);
    SameBy(a + b, c + d, k + m);
  }

  lemma {:induction false} SameTimes256(a: nat, b: nat)
    requires Same(a, b)
    ensures Same(256 * a, 256 * b)
  {
    var k := SameDiffers(a, b);
    SameBy(256 * a, 256 * b, 256 * k);
  }

  /** Shifting by two bytes is the identity. */
  lemma {:induction false} SameTwice256(a: nat)
    ensures Same(256 * (256 * a), a)
  {
    SameBy(256 * (256 * a), a, a);
  }

  // ----- the macros -----

  /** FOLD_U32T */
  function Fold(u: nat): nat {
    u / 65536 + u % 65536
  }

  /** SWAP_BYTES_IN_WORD */
  function Swap(w: nat): nat {
    w % 256 * 256 + w % 65536 / 256
  }

  /** lwip_htons */
  function Htons(o: Order, w: nat): nat
    requires w <= M
  {
    if o.Little? then Swap(w) else w
  }

  lemma {:induction false} FoldSame(u: nat)
    ensures Same(Fold(u), u)
  {
    SameBy(u, Fold(u), u / 65536);
  }

  /** Two folds bring any 32-bit value down to 16 bits. */
  lemma {:induction false} FoldTwice(u: nat)
    requires u < 0x1_0000_0000
    ensures Fold(Fold(u)) <= M && Same(Fold(Fold(u)), u)
  {
    assert u / 65536 <= M && Fold(u) <= 2 * M;
    FoldSame(u);
    FoldSame(Fold(u));
  }

  lemma {:induction false} FoldOnce(u: nat)
    requires u <= 2 * M
    ensures Fold(u) <= M && Same(Fold(u), u)
  {
    FoldSame(u);
  }

  lemma {:induction false} SwapSame(w: nat)
    requires w <= M
    ensures Swap(w) <= M && Same(Swap(w), 256 * w)
  {
    assert w == 256 * (w / 256) + w % 256 && w % 65536 == w;
    SameBy(256 * w, Swap(w), w / 256);
  }

  // ----- sums -----

  lemma {:induction false} AddSame(a: nat, b: nat)
    requires a <= M && b <= M
    ensures Same(Add(a, b), a + b)
  {
    SameBy(a + b, Add(a, b), if a + b > M then 1 else 0);
  }

  /** The reference is the 16-bit representative of the plain sum. */
  lemma {:induction false} RefIsPlain(o: Order, s: seq<byte>)
    ensures Same(RefSum(o, s), PlainSum(o, s))
  {
    if 2 <= |s| {
      var w := Word(o, s[0], s[1]);
      RefIsPlain(o, s[2..]);
      AddSame(w, RefSum(o, s[2..]));
      SameAdd(w, RefSum(o, s[2..]), w, PlainSum(o, s[2..]));
    }
  }

  /** What any implementation has to deliver: a 16-bit value that stands for the plain sum. */
  lemma {:induction false} Delivers(o: Order, s: seq<byte>, r: nat)
    requires r <= M && Same(r, PlainSum(o, s))
    ensures r == RefSum(o, s)
  {
    RefIsPlain(o, s);
    SameUnique(r, RefSum(o, s));
  }

  /** One byte in front shifts all the words behind it by a byte. */
  lemma {:induction false} PlainConsSame(o: Order, x: byte, s: seq<byte>)
    ensures Same(PlainSum(o, [x] + s), Word(o, x, 0) + 256 * PlainSum(o, s))
    decreases |s|
  {
    if |s| == 0 {
      assert [x] + s == [x];
    } else if |s| == 1 {
      assert ([x] + s)[2..] == [];
      ShiftedWord(o, x, s[0], 0, 0, 0);
    } else {
      assert ([x] + s)[2..] == [s[1]] + s[2..];
      PlainConsSame(o, s[1], s[2..]);
      ShiftedWord(o, x, s[0], s[1], PlainSum(o, s[2..]), PlainSum(o, [s[1]] + s[2..]));
    }
  }

  lemma {:induction false} ShiftedWord(o: Order, x: byte, y: byte, z: byte, rest: nat, shifted: nat)
    requires Same(shifted, Word(o, z, 0) + 256 * rest)
    ensures Same(Word(o, x, y) + shifted, Word(o, x, 0) + 256 * (Word(o, y, z) + rest))
  {
    var a, b := Word(o, x, y) + (Word(o, z, 0) + 256 * rest), Word(o, x, 0) + 256 * (Word(o, y, z) + rest);
    SameAdd(Word(o, x, y), shifted, Word(o, x, y), Word(o, z, 0) + 256 * rest);
    SameBy(b, a, if o.Little? then z else y);
  }

  /** The sum x of bytes that follow n others: shifted by a byte when n is odd. */
  function After(n: nat, x: nat): nat {
    if n % 2 == 0 then x else 256 * x
  }

  /** The sum of a concatenation: the second part is shifted when the first has odd length. */
  lemma {:induction false} PlainConcatSame(o: Order, a: seq<byte>, b: seq<byte>)
    ensures Same(PlainSum(o, a + b), PlainSum(o, a) + After(|a|, PlainSum(o, b)))
  {
    if |a| == 0 {
      assert a + b == b;
    } else if |a| == 1 {
      assert a + b == [a[0]] + b;
      PlainConsSame(o, a[0], b);
    } else {
      PlainConcatSame(o, a[2..], b);
      PlainPeel(o, a, b);
      ConcatStep(Word(o, a[0], a[1]), PlainSum(o, a[2..] + b), PlainSum(o, a[2..]), |a|, PlainSum(o, b));
    }
  }

  lemma {:induction false} PlainPeel(o: Order, a: seq<byte>, b: seq<byte>)
    requires 2 <= |a|
    ensures PlainSum(o, a) == Word(o, a[0], a[1]) + PlainSum(o, a[2..])
    ensures PlainSum(o, a + b) == Word(o, a[0], a[1]) + PlainSum(o, a[2..] + b)
  {
    assert (a + b)[2..] == a[2..] + b;
  }

  lemma {:induction false} ConcatStep(w: nat, p: nat, q: nat, n: nat, r: nat)
    requires 2 <= n && Same(p, q + After(n - 2, r))
    ensures Same(w + p, w + q + After(n, r))
  {
    SameAdd(w, p, w, q + After(n - 2, r));
  }

  /** The two byte orders give byte-swapped sums (section 2, (B) of RFC 1071). */
  lemma {:induction false} OrdersSwapped(s: seq<byte>)
    ensures Same(PlainSum(Little, s), 256 * PlainSum(Big, s))
  {
    if |s| == 1 {
      SwappedWord(s[0], 0);
    } else if 2 <= |s| {
      OrdersSwapped(s[2..]);
      SwappedWord(s[0], s[1]);
      SameAdd(Word(Little, s[0], s[1]), PlainSum(Little, s[2..]),
              256 * Word(Big, s[0], s[1]), 256 * PlainSum(Big, s[2..]));
    }
  }

  lemma {:induction false} SwappedWord(x: byte, y: byte)
    ensures Same(Word(Little, x, y), 256 * Word(Big, x, y))
  {
    SameBy(256 * Word(Big, x, y), Word(Little, x, y), x);
  }

  lemma {:induction false} PlainBound(o: Order, s: seq<byte>)
    ensures PlainSum(o, s) <= M * ((|s| + 1) / 2)
  {
    if 2 <= |s| { PlainBound(o, s[2..]); }
  }
}
