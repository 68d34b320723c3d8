/** The Internet checksum of the ICMP echo request (section 1 and 2 of RFC 1071). */
module Checksum {

  type Byte = x: int | 0 <= x < 256
  type Word = x: int | 0 <= x < 0x1_0000

  /** The largest value of the 32-bit accumulator. */
  const INT_MAX: int := 0x7FFF_FFFF

  /** Two bytes as the machine reads them into a 16-bit word. */
  function Load(first: Byte, second: Byte, little: bool): Word {
    if little then first + 256 * second else 256 * first + second
  }

  /** A buffer as words; an odd last byte is read into a word whose other byte is junk. */
  function Words(b: seq<Byte>, little: bool, junk: Byte): seq<Word> {
    if b == [] then []
    else if |b| == 1 then [Load(b[0], junk, little)]
    else [Load(b[0], b[1], little)] + Words(b[2..], little, junk)
  }

  function Sum(ws: seq<Word>): nat {
    if ws == [] then 0 else Sum(ws[..|ws| - 1]) + ws[|ws| - 1]
  }

  /** One's complement addition: the carry out of the top bit is added at the bottom. */
  function Plus(a: Word, b: Word): Word {
    if a + b > 0xFFFF then a + b - 0xFFFF else a + b
  }

  /** The one's complement sum of section 1 of RFC 1071, with the carry added back at every step. */
  function OnesSum(ws: seq<Word>): Word {
    if ws == [] then 0 else Plus(OnesSum(ws[..|ws| - 1]), ws[|ws| - 1])
  }

  /** What the checksum is meant to be: the complement of the one's complement sum. */
  function Cksum(ws: seq<Word>): Word {
    0xFFFF - OnesSum(ws)
  }

  /** The single representative of a sum: 0 only for 0, otherwise 1..65535. */
  function Residue(n: nat): Word {
    if n == 0 then 0 else (n - 1) % 0xFFFF + 1
  }

  lemma ResidueIs(n: nat, r: Word)
    requires n % 0xFFFF == r % 0xFFFF && (n == 0 <==> r == 0)
    ensures Residue(n) == r
  {
  }

  lemma ResidueMod(n: nat)
    ensures Residue(n) % 0xFFFF == n % 0xFFFF && (Residue(n) == 0 <==> n == 0)
  {
  }

  /** Carries may be deferred: the one's complement sum is the residue of the plain sum. */
  lemma {:induction false} OnesSumIsResidue(ws: seq<Word>)
    ensures OnesSum(ws) == Residue(Sum(ws))
  {
    if ws != [] {
      var front, w := ws[..|ws| - 1], ws[|ws| - 1];
      OnesSumIsResidue(front);
      ResidueMod(Sum(front));
      ResidueIs(Sum(ws), OnesSum(ws));
    }
  }

  lemma {:induction false} SumBound(ws: seq<Word>)
    ensures Sum(ws) <= 0xFFFF * |ws|
  {
    if ws != [] { SumBound(ws[..|ws| - 1]); }
  }

  function Repeat(n: nat): seq<Word> {
    seq(n, _ => 0xFFFF)
  }

  lemma {:induction false} RepeatSum(n: nat)
    ensures Sum(Repeat(n)) == 0xFFFF * n
  {
    if n > 0 {
      assert Repeat(n)[..n - 1] == Repeat(n - 1);
      RepeatSum(n - 1);
    }
  }

  /** The accumulator holds the sum of every buffer of n words exactly when n is at most 32768. */
  lemma NoOverflowIff(n: nat)
    ensures (forall ws: seq<Word> :: |ws| == n ==> Sum(ws) <= INT_MAX) <==> n <= 32768
  {
    RepeatSum(n);
    assert |Repeat(n)| == n;
    forall ws: seq<Word> | |ws| == n ensures Sum(ws) <= 0xFFFF * n { SumBound(ws); }
  }

  /** Two folds suffice for any accumulator value. */
  lemma TwoFolds(sum: nat)
    requires sum <= INT_MAX
    ensures var once := sum / 0x1_0000 + sum % 0x1_0000;
            (once + once / 0x1_0000) % 0x1_0000 == Residue(sum)
  {
    hide Residue;
    var hi, lo := sum / 0x1_0000, sum % 0x1_0000;
    var once := hi + lo;
    assert sum == 0xFFFF * hi + once;
    MulMod(once, hi);
    ResidueIs(sum, SecondFold(once));
  }

  /** The second fold takes the one carry there can be. */
  function SecondFold(once: nat): (w: Word)
    requires once < 0x1_8000
    ensures w % 0xFFFF == once % 0xFFFF && (w == 0 <==> once == 0)
  {
    (once + once / 0x1_0000) % 0x1_0000
  }

  lemma {:induction false} MulMod(a: int, q: nat)
    ensures (0xFFFF * q + a) % 0xFFFF == a % 0xFFFF
  {
    if q > 0 {
      MulMod(a, q - 1);
      assert 0xFFFF * q + a == 0xFFFF * (q - 1) + a + 0xFFFF;
    }
  }

  lemma {:induction false} WordsFrom(b: seq<Byte>, k: nat, little: bool, junk: Byte)
    requires 2 * k <= |b|
    ensures |Words(b, little, junk)| == (|b| + 1) / 2
    ensures Words(b, little, junk)[k..] == Words(b[2 * k..], little, junk)
    ensures 2 * k + 1 < |b| ==> Words(b, little, junk)[k] == Load(b[2 * k], b[2 * k + 1], little)
    ensures 2 * k + 1 == |b| ==> Words(b, little, junk)[k] == Load(b[2 * k], junk, little)
  {
    if |b| >= 2 {
      if k > 0 {
        WordsFrom(b[2..], k - 1, little, junk);
        assert b[2..][2 * (k - 1)..] == b[2 * k..];
      } else {
        WordsFrom(b[2..], 0, little, junk);
        assert b[0..] == b;
      }
    } else {
      assert b[2 * k..] == b;
    }
  }

  /**
   * in_cksum: the accumulating loop, the odd byte and the two folds. junk is the byte of the uninitialised variable
   * that the odd byte does not overwrite.
   */
  method InCksum(addr: array<Byte>, len: nat, little: bool, junk: Byte) returns (answer: Word)
    requires len <= addr.Length && (len + 1) / 2 <= 32768
    ensures answer == Cksum(Words(addr[..len], little, junk))
  {
    hide Words, OnesSum, Residue, Sum;
    var b, k := addr[..len], 0;
    ghost var ws := Words(b, little, junk);
    WordsFrom(b, 0, little, junk);
    SumFront(ws, 0);
    var nleft, sum: nat := len, 0;
    while nleft > 1
      invariant nleft == len - 2 * k && 2 * k <= len && k <= |ws|
      invariant sum == Sum(ws[..k])
    {
      WordsFrom(b, k, little, junk);
      SumFront(ws, k);
      sum := sum + Load(addr[2 * k], addr[2 * k + 1], little);
      k := k + 1;
      nleft := nleft - 2;
    }
    if nleft == 1 {
      WordsFrom(b, k, little, junk);
      SumFront(ws, k);
      sum := sum + Load(addr[len - 1], junk, little);
      k := k + 1;
    }
    assert ws[..k] == ws;
    SumBound(ws);
    OnesSumIsResidue(ws);
    answer := Fold(sum);
  }

  /** The end of in_cksum: the carries are added back and the result is complemented. */
  method Fold(acc: nat) returns (answer: Word)
    requires acc <= INT_MAX
    ensures answer == 0xFFFF - Residue(acc)
  {
    hide Residue;
    TwoFolds(acc);
    var sum := acc / 0x1_0000 + acc % 0x1_0000;
    sum := sum + sum / 0x1_0000;
    answer := 0xFFFF - sum % 0x1_0000;
  }

  lemma SumFront(ws: seq<Word>, k: nat)
    requires k <= |ws|
    ensures k < |ws| ==> Sum(ws[..k + 1]) == Sum(ws[..k]) + ws[k]
    ensures k == 0 ==> Sum(ws[..k]) == 0
  {
    if k < |ws| { assert ws[..k + 1][..k] == ws[..k]; }
  }

  lemma {:induction false} SumUpdate(ws: seq<Word>, i: nat, v: Word)
    requires i < |ws|
    ensures Sum(ws[i := v]) == Sum(ws) - ws[i] + v
  {
    var n := |ws| - 1;
    assert ws[i := v][..n] == if i < n then ws[..n][i := v] else ws[..n];
    if i < n { SumUpdate(ws[..n], i, v); }
  }

  /** Two sums of one class have one residue, except that only a sum of nothing has residue 0. */
  lemma ResidueFull(n: nat)
    ensures Residue(n) == 0xFFFF <==> n > 0 && n % 0xFFFF == 0
  {
  }

  lemma ModPlus(s: nat, r: Word, v: Word)
    requires s % 0xFFFF == r % 0xFFFF && (r == 0 <==> s == 0)
    ensures s + v > 0 && (s + v) % 0xFFFF == 0 <==> r + v == 0xFFFF || r + v == 2 * 0xFFFF
  {
    var q := s / 0xFFFF;
    assert s + v == 0xFFFF * q + (s % 0xFFFF + v);
    MulMod(s % 0xFFFF + v, q);
  }

  /** Which contents of a zeroed field make the receiver's checksum 0: the checksum, and all ones for a zero one. */
  lemma VerifiesIff(ws: seq<Word>, i: nat, v: Word)
    requires i < |ws| && ws[i] == 0
    ensures Cksum(ws[i := v]) == 0 <==> v == Cksum(ws) || (Cksum(ws) == 0 && v == 0xFFFF)
  {
    hide OnesSum, Residue;
    SumUpdate(ws, i, v);
    OnesSumIsResidue(ws);
    OnesSumIsResidue(ws[i := v]);
    var s, r := Sum(ws), OnesSum(ws);
    ResidueMod(s);
    ResidueFull(s + v);
    ModPlus(s, r, v);
  }

  /** A packet that verifies stops verifying when one word changes, unless 0 and all ones are exchanged. */
  lemma OneWordDetectedIff(ws: seq<Word>, i: nat, v: Word)
    requires i < |ws| && Cksum(ws) == 0
    ensures Cksum(ws[i := v]) == 0 <==>
            v == ws[i] || (v == 0xFFFF && ws[i] == 0) || (v == 0 && ws[i] == 0xFFFF && Sum(ws) > 0xFFFF)
  {
    hide OnesSum, Residue, Sum;
    SumUpdate(ws, i, v);
    OnesSumIsResidue(ws);
    OnesSumIsResidue(ws[i := v]);
    ResidueFull(Sum(ws));
    ResidueFull(Sum(ws[i := v]));
    SameClass(Sum(ws), v - ws[i]);
  }

  lemma SameClass(n: nat, step: int)
    requires n % 0xFFFF == 0 && -0xFFFF <= step <= 0xFFFF && n + step >= 0
    ensures (n + step) % 0xFFFF == 0 <==> step == 0 || step == 0xFFFF || step == -0xFFFF
  {
  }

  lemma {:induction false} SumConcat(a: seq<Word>, b: seq<Word>)
    ensures Sum(a + b) == Sum(a) + Sum(b)
  {
    if b == [] {
      assert a + b == a;
    } else {
      assert (a + b)[..|a + b| - 1] == a + b[..|b| - 1];
      SumConcat(a, b[..|b| - 1]);
    }
  }

  lemma WithoutAt<T>(p: seq<T>, w: T, q: seq<T>)
    ensures multiset(p + q) == multiset(p + ([w] + q)) - multiset{w}
  {
    assert multiset(p + q) == multiset(p) + multiset(q);
    assert multiset(p + ([w] + q)) == multiset(p) + (multiset{w} + multiset(q));
  }

  lemma WithoutLast<T>(a: seq<T>)
    requires a != []
    ensures multiset(a[..|a| - 1]) == multiset(a) - multiset{a[|a| - 1]}
  {
    assert a == a[..|a| - 1] + [a[|a| - 1]];
  }

  lemma WithoutOne<T>(b: seq<T>, j: nat)
    requires j < |b|
    ensures multiset(b[..j] + b[j + 1..]) == multiset(b) - multiset{b[j]}
  {
    assert b == b[..j] + ([b[j]] + b[j + 1..]);
    WithoutAt(b[..j], b[j], b[j + 1..]);
  }

  /** The last element of a sequence, found in a rearrangement of it. */
  lemma Partner<T>(a: seq<T>, b: seq<T>) returns (j: nat)
    requires multiset(a) == multiset(b) && a != []
    ensures j < |b| && b[j] == a[|a| - 1] && multiset(a[..|a| - 1]) == multiset(b[..j] + b[j + 1..])
  {
    var w := a[|a| - 1];
    assert w in multiset(a) && w in multiset(b);
    j :| 0 <= j < |b| && b[j] == w;
    WithoutLast(a);
    WithoutOne(b, j);
  }

  /** The order of the words does not matter. */
  lemma {:induction false} WordOrder(a: seq<Word>, b: seq<Word>)
    requires multiset(a) == multiset(b)
    ensures Sum(a) == Sum(b) && Cksum(a) == Cksum(b)
  {
    if a == [] {
      assert |multiset(a)| == |a| && |multiset(b)| == |b|;
    } else {
      var n, w := |a| - 1, a[|a| - 1];
      var j := Partner(a, b);
      var rest := b[..j] + b[j + 1..];
      assert b == b[..j] + ([w] + b[j + 1..]);
      WordOrder(a[..n], rest);
      SumConcat(b[..j], [w] + b[j + 1..]);
      SumConcat([w], b[j + 1..]);
      SumConcat(b[..j], b[j + 1..]);
      assert Sum([w]) == w;
    }
    OnesSumIsResidue(a);
    OnesSumIsResidue(b);
  }

  function Swap(w: Word): Word {
    Load(w / 256, w % 256, true)
  }

  function SwapAll(ws: seq<Word>): seq<Word> {
    seq(|ws|, i requires 0 <= i < |ws| => Swap(ws[i]))
  }

  lemma SwapWord(w: Word)
    ensures 256 * w == 0xFFFF * (w / 256) + Swap(w)
    ensures Swap(w) == 0 <==> w == 0
    ensures Swap(0xFFFF - w) == 0xFFFF - Swap(w)
  {
  }

  /** The carry-outs of swapping every word. */
  function Highs(ws: seq<Word>): nat {
    if ws == [] then 0 else Highs(ws[..|ws| - 1]) + ws[|ws| - 1] / 256
  }

  lemma {:induction false} SwapSum(ws: seq<Word>)
    ensures 256 * Sum(ws) == 0xFFFF * Highs(ws) + Sum(SwapAll(ws))
  {
    if ws != [] {
      var n := |ws| - 1;
      SwapSum(ws[..n]);
      assert SwapAll(ws)[..n] == SwapAll(ws[..n]);
      SwapWord(ws[n]);
    }
  }

  /** Multiplying by 256 keeps residue classes. */
  lemma ScaleMod(a: nat, b: nat)
    requires a % 0xFFFF == b % 0xFFFF
    ensures 256 * a % 0xFFFF == 256 * b % 0xFFFF
  {
    var p, q := a / 0xFFFF, b / 0xFFFF;
    var r := a % 0xFFFF;
    assert 256 * a == 0xFFFF * (256 * p) + 256 * r;
    assert 256 * b == 0xFFFF * (256 * q) + 256 * r;
    MulMod(256 * r, 256 * p);
    MulMod(256 * r, 256 * q);
  }

  /** The byte order does not matter: swapping the bytes of every word swaps those of the sum and the checksum. */
  lemma ByteOrder(ws: seq<Word>)
    ensures OnesSum(SwapAll(ws)) == Swap(OnesSum(ws))
    ensures Cksum(SwapAll(ws)) == Swap(Cksum(ws))
  {
    hide OnesSum, Sum, Highs, Swap, SwapAll, Residue;
    var s, t, r := Sum(ws), Sum(SwapAll(ws)), OnesSum(ws);
    OnesSumIsResidue(ws);
    OnesSumIsResidue(SwapAll(ws));
    ResidueMod(s);
    SwapSum(ws);
    MulMod(t, Highs(ws));
    ScaleMod(s, r);
    SwapWord(r);
    MulMod(Swap(r), r / 256);
    SwapZero(ws);
    ResidueIs(t, Swap(r));
  }

  lemma {:induction false} SwapZero(ws: seq<Word>)
    ensures Sum(ws) == 0 <==> Sum(SwapAll(ws)) == 0
  {
    if ws != [] {
      var n := |ws| - 1;
      SwapZero(ws[..n]);
      assert SwapAll(ws)[..n] == SwapAll(ws[..n]);
    }
  }

  lemma {:induction false} WordsSwap(b: seq<Byte>, j: Byte)
    requires |b| % 2 == 0
    ensures SwapAll(Words(b, true, j)) == Words(b, false, j)
  {
    if b != [] {
      WordsSwap(b[2..], j);
      var big, small := Words(b, false, j), Words(b, true, j);
      assert forall i :: 0 <= i < |small| - 1 ==> SwapAll(small)[i + 1] == SwapAll(Words(b[2..], true, j))[i];
      assert Swap(small[0]) == big[0];
    }
  }

  /** The bytes a machine writes for a word. */
  function Bytes(w: Word, little: bool): (Byte, Byte) {
    if little then (w % 256, w / 256) else (w / 256, w % 256)
  }

  /** An even-length packet with the field at the even offset f set to a pair of bytes. */
  function SetField(b: seq<Byte>, f: nat, v: (Byte, Byte)): (r: seq<Byte>)
    requires f + 1 < |b|
    ensures |r| == |b|
  {
    b[f := v.0][f + 1 := v.1]
  }

  /** The packet as sent, as the network order machine makes it. */
  function Sealed(b: seq<Byte>, f: nat): seq<Byte>
    requires f + 1 < |b|
  {
    SetField(b, f, Bytes(Cksum(Words(SetField(b, f, (0, 0)), false, 0)), false))
  }

  lemma {:induction false} WordsSet(b: seq<Byte>, f: nat, w: Word, little: bool, junk: Byte)
    requires |b| % 2 == 0 && f % 2 == 0 && f + 1 < |b|
    ensures |Words(b, little, junk)| == |b| / 2
    ensures Words(SetField(b, f, Bytes(w, little)), little, junk) == Words(b, little, junk)[f / 2 := w]
  {
    WordsFrom(b, 0, little, junk);
    var c := SetField(b, f, Bytes(w, little));
    if f == 0 {
      assert c[2..] == b[2..];
    } else {
      WordsSet(b[2..], f - 2, w, little, junk);
      assert c[2..] == SetField(b[2..], f - 2, Bytes(w, little));
    }
  }

  /** The two orders write the same packet. */
  lemma SameBytes(b: seq<Byte>, f: nat, little: bool, junk: Byte)
    requires |b| % 2 == 0 && f % 2 == 0 && f + 1 < |b|
    ensures var z := SetField(b, f, (0, 0));
            SetField(b, f, Bytes(Cksum(Words(z, little, junk)), little)) == Sealed(b, f)
  {
    hide Words, OnesSum, SetField;
    var z := SetField(b, f, (0, 0));
    JunkUnused(z, false, junk, 0);
    if little {
      ByteOrder(Words(z, true, junk));
      WordsSwap(z, junk);
    }
  }

  lemma {:induction false} JunkUnused(b: seq<Byte>, little: bool, j: Byte, k: Byte)
    requires |b| % 2 == 0
    ensures Words(b, little, j) == Words(b, little, k)
  {
    if b != [] { JunkUnused(b[2..], little, j, k); }
  }

  /** On either machine the sealed packet has checksum 0. */
  lemma SealedVerifies(b: seq<Byte>, f: nat, little: bool, junk: Byte)
    requires |b| % 2 == 0 && f % 2 == 0 && f + 1 < |b|
    ensures Cksum(Words(Sealed(b, f), little, junk)) == 0
  {
    hide Cksum;
    var z := SetField(b, f, (0, 0));
    var ws := Words(z, little, junk);
    SameBytes(b, f, little, junk);
    WordsSet(b, f, 0, little, junk);
    WordsSet(z, f, Cksum(ws), little, junk);
    assert SetField(z, f, Bytes(Cksum(ws), little)) == SetField(b, f, Bytes(Cksum(ws), little));
    VerifiesIff(ws, f / 2, Cksum(ws));
  }

  /** The sender: zero the field, compute, store in host order. The bytes sent do not depend on the machine. */
  method SealPacket(packet: array<Byte>, f: nat, little: bool, junk: Byte)
    requires packet.Length % 2 == 0 && packet.Length <= 65536 && f % 2 == 0 && f + 1 < packet.Length
    modifies packet
    ensures packet[..] == Sealed(old(packet[..]), f)
    ensures Cksum(Words(packet[..], !little, junk)) == 0 && Cksum(Words(packet[..], little, junk)) == 0
  {
    hide Cksum, Words;
    ghost var b := packet[..];
    packet[f], packet[f + 1] := 0, 0;
    assert packet[..] == SetField(b, f, (0, 0));
    var c := InCksum(packet, packet.Length, little, junk);
    assert packet[..packet.Length] == packet[..];
    var v := Bytes(c, little);
    packet[f], packet[f + 1] := v.0, v.1;
    assert packet[..] == SetField(b, f, v);
    SameBytes(b, f, little, junk);
    SealedVerifies(b, f, little, junk);
    SealedVerifies(b, f, !little, junk);
  }

  /** An odd buffer gets the checksum of the buffer padded with a zero byte exactly when the junk byte is zero. */
  lemma OddRightIff(b: seq<Byte>, little: bool, junk: Byte)
    requires |b| % 2 == 1
    ensures Cksum(Words(b, little, junk)) == Cksum(Words(b + [0], little, junk)) <==> junk == 0
  {
    hide Words, Sum, OnesSum, Residue;
    var ws, ps, k := Words(b, little, junk), Words(b + [0], little, junk), |b| / 2;
    OddWords(b, little, junk);
    SumUpdate(ps, k, ws[k]);
    OnesSumIsResidue(ws);
    OnesSumIsResidue(ps);
    ResidueMod(Sum(ws));
    ResidueMod(Sum(ps));
  }

  lemma {:induction false} OddWords(b: seq<Byte>, little: bool, junk: Byte)
    requires |b| % 2 == 1
    ensures |Words(b, little, junk)| == |Words(b + [0], little, junk)| == |b| / 2 + 1
    ensures var ws, ps, k := Words(b, little, junk), Words(b + [0], little, junk), |b| / 2;
            ws == ps[k := ws[k]] && ws[k] == Load(b[|b| - 1], junk, little) && ps[k] == Load(b[|b| - 1], 0, little)
  {
    if |b| > 1 {
      OddWords(b[2..], little, junk);
      assert (b + [0])[2..] == b[2..] + [0];
    } else {
      assert (b + [0])[2..] == [];
    }
  }
}
