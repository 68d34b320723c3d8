/** Strings as the C++ code uses them: searching, case folding, decimal numbers. */
module Text {

  // ----- std::string::find and friends; -1 stands for npos, as the int the code stores it in

  /** Position of the first c at or after from. */
  function Find(s: string, c: char, from: nat): (p: int)
    ensures p == -1 ==> forall k :: from <= k < |s| ==> s[k] != c
    ensures p != -1 ==> from <= p < |s| && s[p] == c && forall k :: from <= k < p ==> s[k] != c
    decreases |s| - from
  {
    if from >= |s| then -1 else if s[from] == c then from else Find(s, c, from + 1)
  }

  /** find_first_not_of: position of the first character at or after from that is not in set cs. */
  function FindFirstNotOf(s: string, cs: set<char>, from: nat): (p: int)
    ensures p == -1 ==> forall k :: from <= k < |s| ==> s[k] in cs
    ensures p != -1 ==> from <= p < |s| && s[p] !in cs && forall k :: from <= k < p ==> s[k] in cs
    decreases |s| - from
  {
    if from >= |s| then -1 else if s[from] !in cs then from else FindFirstNotOf(s, cs, from + 1)
  }

  /** Position of the last character before hi that is not in set cs. */
  function LastNotOfBefore(s: string, cs: set<char>, hi: nat): (p: int)
    requires hi <= |s|
    ensures p == -1 ==> forall k :: 0 <= k < hi ==> s[k] in cs
    ensures p != -1 ==> 0 <= p < hi && s[p] !in cs && forall k :: p < k < hi ==> s[k] in cs
  {
    if hi == 0 then -1 else if s[hi - 1] !in cs then hi - 1 else LastNotOfBefore(s, cs, hi - 1)
  }

  /** find_last_not_of(cs, pos): the search starts AT pos and runs backwards. */
  function FindLastNotOf(s: string, cs: set<char>, pos: nat): (p: int)
    ensures -1 <= p < |s| && p <= pos
  {
    LastNotOfBefore(s, cs, if pos < |s| then pos + 1 else |s|)
  }

  /** t stands in s at position i. */
  predicate At(s: string, i: nat, t: string) {
    i + |t| <= |s| && forall k :: 0 <= k < |t| ==> s[i + k] == t[k]
  }

  lemma CharAt(s: string, i: nat, t: string, k: nat)
    requires At(s, i, t) && k < |t|
    ensures i + k < |s| && s[i + k] == t[k]
  {
  }

  lemma AtAppend(s: string, i: nat, a: string, b: string)
    ensures At(s, i, a + b) <==> At(s, i, a) && At(s, i + |a|, b)
  {
    var t := a + b;
    if At(s, i, t) {
      forall k | 0 <= k < |a| ensures s[i + k] == a[k] { assert t[k] == a[k]; }
      forall k | 0 <= k < |b| ensures s[i + |a| + k] == b[k] { assert t[|a| + k] == b[k]; }
    }
    if At(s, i, a) && At(s, i + |a|, b) {
      forall k | 0 <= k < |t| ensures s[i + k] == t[k] {
        if k >= |a| { assert b[k - |a|] == t[k] && s[i + |a| + (k - |a|)] == b[k - |a|]; }
      }
    }
  }

  lemma Regroup(p: string, q: string, x: string, r: string, t: string, e: string)
    ensures p + ((q + x + r) + t) + e == (p + q) + x + (r + t + e)
  {
  }

  lemma Cut3(s: string, i: nat, a: string, b: string, c: string)
    requires i <= |s| && s[i..] == a + b + c
    ensures |s| == i + |a| + |b| + |c|
    ensures s[i..i + |a|] == a && s[i + |a|..i + |a| + |b|] == b && s[i + |a| + |b|..] == c
  {
    var r := s[i..];
    assert s[i..i + |a|] == r[..|a|];
    assert s[i + |a|..i + |a| + |b|] == r[|a|..|a| + |b|];
    assert s[i + |a| + |b|..] == r[|a| + |b|..];
  }

  // ----- case folding (strcasecmp, tolower)

  function LowerChar(c: char): char {
    if 'A' <= c <= 'Z' then c - 'A' + 'a' else c
  }

  function Lower(s: string): (r: string)
    ensures |r| == |s|
    ensures forall k :: 0 <= k < |s| ==> r[k] == LowerChar(s[k])
  {
    seq(|s|, i requires 0 <= i < |s| => LowerChar(s[i]))
  }

  const UPPER: string := "ABCDEFGHIJKLMNOPQRSTUVWXYZ"
  const LOWER: string := "abcdefghijklmnopqrstuvwxyz"

  lemma Alphabet(k: nat)
    requires k < 26
    ensures UPPER[k] == 'A' + k as char
    ensures LOWER[k] == 'a' + k as char
  {
  }

  /** Folding takes each capital letter to the small letter of the same place in the alphabet. */
  lemma CapitalFolds(k: nat)
    requires k < 26
    ensures LowerChar(UPPER[k]) == LOWER[k]
  {
    Alphabet(k);
  }

  /** And it changes no other character; none is left a capital letter. */
  lemma OthersStay(c: char)
    ensures c !in UPPER ==> LowerChar(c) == c
    ensures LowerChar(c) !in UPPER
  {
    forall k | 0 <= k < 26 ensures 'A' <= UPPER[k] <= 'Z' { Alphabet(k); }
    if 'A' <= c <= 'Z' { Alphabet((c - 'A') as int); }
  }

  /** strcasecmp(a, b) == 0. */
  predicate EqNoCase(a: string, b: string) {
    Lower(a) == Lower(b)
  }

  // ----- decimal numbers

  predicate IsDigit(c: char) {
    '0' <= c <= '9'
  }

  function DigitValue(c: char): nat
    requires IsDigit(c)
  {
    (c - '0') as nat
  }

  function DigitChar(d: nat): (c: char)
    requires d < 10
    ensures IsDigit(c) && DigitValue(c) == d
  {
    ['0', '1', '2', '3', '4', '5', '6', '7', '8', '9'][d]
  }

  function NatToString(n: nat): (s: string)
    ensures |s| > 0 && forall k :: 0 <= k < |s| ==> IsDigit(s[k])
  {
    if n < 10 then [DigitChar(n)] else NatToString(n / 10) + [DigitChar(n % 10)]
  }

  function ToString(n: int): string {
    if n < 0 then "-" + NatToString(-n) else NatToString(n)
  }

  /** Value of the digit run of s that starts at i, continuing from acc. */
  function ScanNat(s: string, i: nat, acc: nat): nat
    decreases |s| - i
  {
    if i < |s| && IsDigit(s[i]) then ScanNat(s, i + 1, acc * 10 + DigitValue(s[i])) else acc
  }

  function SkipSpaces(s: string, i: nat): (j: nat)
    ensures j >= i
    decreases |s| - i
  {
    if i < |s| && s[i] in {' ', '\t', '\n', '\r'} then SkipSpaces(s, i + 1) else i
  }

  /** C's atoi: leading blanks, an optional sign, then as many digits as there are. */
  function Atoi(s: string): int {
    var i := SkipSpaces(s, 0);
    if i < |s| && s[i] == '-' then -(ScanNat(s, i + 1, 0) as int)
    else if i < |s| && s[i] == '+' then ScanNat(s, i + 1, 0)
    else ScanNat(s, i, 0)
  }

  /** One more digit is read. */
  lemma {:induction false} ScanLast(s: string, i: nat, j: nat, acc: nat, n: nat, d: nat)
    requires i <= j < |s| && d < 10 && s[j] == DigitChar(d)
    requires ScanNat(s, i, acc) == ScanNat(s, j, n)
    ensures ScanNat(s, i, acc) == ScanNat(s, j + 1, n * 10 + d)
  {
    assert IsDigit(s[j]) && DigitValue(s[j]) == d;
  }

  /** The decimal form of n, wherever it stands in s, is read as n. */
  lemma {:induction false} ScanNatReads(s: string, i: nat, n: nat)
    requires i + |NatToString(n)| <= |s|
    requires forall m :: 0 <= m < |NatToString(n)| ==> s[i + m] == NatToString(n)[m]
    ensures ScanNat(s, i, 0) == ScanNat(s, i + |NatToString(n)|, n)
  {
    hide ScanNat, DigitChar;
    var t := NatToString(n);
    if n < 10 {
      assert t[0] == DigitChar(n) == s[i + 0];
      ScanLast(s, i, i, 0, 0, n);
    } else {
      var h := NatToString(n / 10);
      assert t == h + [DigitChar(n % 10)];
      assert forall m :: 0 <= m < |h| ==> t[m] == h[m];
      ScanNatReads(s, i, n / 10);
      assert s[i + |h|] == t[|h|];
      ScanLast(s, i, i + |h|, 0, n / 10, n % 10);
    }
  }

  /** atoi undoes the decimal printing of ostream and toString. */
  lemma AtoiToString(n: int)
    ensures Atoi(ToString(n)) == n
  {
    var m: nat := if n < 0 then -n else n;
    var s := ToString(n);
    var o := if n < 0 then 1 else 0;
    ScanNatReads(s, o, m);
    if n >= 0 { assert IsDigit(s[0]); }
  }
}
