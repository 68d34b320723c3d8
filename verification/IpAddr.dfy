/** IPv4 addresses: dotted text, reading one number of it, and the address check. */
module IpAddr {
  import opened Text

  type Octet = x: int | 0 <= x < 256

  datatype Quad = Quad(a: Octet, b: Octet, c: Octet, d: Octet)

  /** The text that inet_ntoa makes, and that the range expander builds. */
  function Dotted(q: Quad): string {
    NatToString(q.a) + "." + NatToString(q.b) + "." + NatToString(q.c) + "." + NatToString(q.d)
  }

  function NumberOf(q: Quad, n: int): int {
    match n case 0 => q.a case 1 => q.b case 2 => q.c case 3 => q.d case _ => 0
  }

  lemma NumeralShort(n: nat)
    requires n < 256
    ensures 1 <= |NatToString(n)| <= 3
    ensures forall k :: 0 <= k < |NatToString(n)| ==> NatToString(n)[k] != '.' && NatToString(n)[k] != ' '
    ensures Atoi(NatToString(n)) == n
  {
    if n >= 10 {
      var m := n / 10;
      assert m < 26 && m / 10 < 3;
      assert |NatToString(m)| <= 2 by { assert |NatToString(m / 10)| == 1; }
    }
    AtoiToString(n);
  }

  /** A number of at most three characters at position k of a dotted text. */
  ghost predicate NumberAt(str: string, k: nat, t: string) {
    k + |t| <= |str| && str[k..k + |t|] == t && |t| <= 3 &&
    (forall i :: 0 <= i < |t| ==> t[i] != '.' && t[i] != ' ') && (k + |t| < |str| ==> str[k + |t|] == '.')
  }

  /** One of the four loops of ipaddr::get, with the step over the dot. */
  method ReadNumber(str: string, k: nat, ghost t: string) returns (d: string, next: nat)
    requires NumberAt(str, k, t)
    ensures d == t && next == if k + |t| < |str| then k + |t| + 1 else |str|
  {
    d, next := "", k;
    forall i | 0 <= i < |t| ensures t[i] == str[k + i] { assert str[k..k + |t|][i] == str[k + i]; }
    while next < |str| && str[next] != '.' && |d| < 3
      invariant k <= next <= k + |t| && |d| == next - k && d == t[..|d|]
      decreases |str| - next
    {
      d := d + [str[next]];
      next := next + 1;
    }
    if next < |str| && str[next] == '.' { next := next + 1; }
  }

  /** Where the four numbers of a dotted text stand. */
  lemma NumbersAt(q: Quad)
    ensures var s, i, j, k := Dotted(q), |NatToString(q.a)|, |NatToString(q.b)|, |NatToString(q.c)|;
            NumberAt(s, 0, NatToString(q.a)) && NumberAt(s, i + 1, NatToString(q.b)) &&
            NumberAt(s, i + j + 2, NatToString(q.c)) && NumberAt(s, i + j + k + 3, NatToString(q.d)) &&
            |s| == i + j + k + 3 + |NatToString(q.d)|
  {
    hide NatToString, Atoi;
    NumeralShort(q.a);
    NumeralShort(q.b);
    NumeralShort(q.c);
    NumeralShort(q.d);
  }

  /** ipaddr::get(int): the n-th number of the address, read from its dotted text. */
  method GetNumber(q: Quad, n: int) returns (o: int)
    ensures o == NumberOf(q, n)
  {
    hide Dotted, NatToString, Atoi, NumberAt;
    NumbersAt(q);
    NumeralShort(q.a);
    NumeralShort(q.b);
    NumeralShort(q.c);
    NumeralShort(q.d);
    var str := Dotted(q);
    var d1, k1 := ReadNumber(str, 0, NatToString(q.a));
    var d2, k2 := ReadNumber(str, k1, NatToString(q.b));
    var d3, k3 := ReadNumber(str, k2, NatToString(q.c));
    var d4, k4 := ReadNumber(str, k3, NatToString(q.d));
    var o1, o2, o3, o4 := Atoi(d1), Atoi(d2), Atoi(d3), Atoi(d4);
    if n == 0 { return o1; }
    if n == 1 { return o2; }
    if n == 2 { return o3; }
    if n == 3 { return o4; }
    return 0;
  }

  /** The parts of a text between dots. */
  function Parts(s: string): (p: seq<string>)
    ensures |p| > 0
  {
    if s == "" then [""]
    else
      var rest := Parts(s[1..]);
      if s[0] == '.' then [""] + rest else [[s[0]] + rest[0]] + rest[1..]
  }

  predicate Digits(t: string) {
    forall i :: 0 <= i < |t| ==> IsDigit(t[i])
  }

  /**
   * utl::isIp on texts of four or more parts: seven characters or more, digits only, no leading 0 and no trailing 0
   * or 255. What stands behind the fourth part is not looked at.
   */
  predicate IsIp(s: string) {
    var p := Parts(s);
    |s| >= 7 && |p| >= 4 && Digits(p[0]) && Digits(p[1]) && Digits(p[2]) && Digits(p[3]) &&
    0 < Atoi(p[0]) <= 255 && 0 <= Atoi(p[1]) <= 255 && 0 <= Atoi(p[2]) <= 255 && 0 < Atoi(p[3]) < 255
  }

  lemma {:induction false} PartsSplit(t: string, rest: string)
    requires forall i :: 0 <= i < |t| ==> t[i] != '.'
    ensures Parts(t + "." + rest) == [t] + Parts(rest) && Parts(t) == [t]
  {
    if t == "" {
      assert t + "." + rest == "." + rest && ("." + rest)[1..] == rest;
    } else {
      PartsSplit(t[1..], rest);
      assert (t + "." + rest)[1..] == t[1..] + "." + rest;
      assert t == [t[0]] + t[1..];
    }
  }

  /** Different addresses have different texts. */
  lemma DottedApart(p: Quad, q: Quad)
    requires Dotted(p) == Dotted(q)
    ensures p == q
  {
    hide NatToString, Atoi;
    DottedParts(p);
    DottedParts(q);
  }

  /** The parts of a dotted text are its four numerals. */
  lemma DottedIs(q: Quad)
    ensures Parts(Dotted(q)) == [NatToString(q.a), NatToString(q.b), NatToString(q.c), NatToString(q.d)]
  {
    hide NatToString, Parts;
    var a, b, c, d := NatToString(q.a), NatToString(q.b), NatToString(q.c), NatToString(q.d);
    NumeralShort(q.a);
    NumeralShort(q.b);
    NumeralShort(q.c);
    NumeralShort(q.d);
    Dots(a, b, c, d);
    PartsSplit(a, b + "." + (c + "." + d));
    PartsSplit(b, c + "." + d);
    PartsSplit(c, d);
    PartsSplit(d, "");
  }

  lemma Dots(a: string, b: string, c: string, d: string)
    ensures a + "." + b + "." + c + "." + d == a + "." + (b + "." + (c + "." + d))
  {
  }

  lemma DottedParts(q: Quad)
    ensures var p := Parts(Dotted(q));
            |p| == 4 && q.a == Atoi(p[0]) && q.b == Atoi(p[1]) && q.c == Atoi(p[2]) && q.d == Atoi(p[3])
    ensures 7 <= |Dotted(q)| <= 15
  {
    hide NatToString, Atoi, Parts;
    NumeralShort(q.a);
    NumeralShort(q.b);
    NumeralShort(q.c);
    NumeralShort(q.d);
    DottedIs(q);
  }

  /** The check accepts an address exactly when its first number is not 0 and its last is neither 0 nor 255. */
  lemma IsIpDotted(q: Quad)
    ensures IsIp(Dotted(q)) <==> q.a > 0 && 0 < q.d < 255
  {
    hide NatToString, Atoi, Parts, Dotted;
    DottedIs(q);
    DottedParts(q);
  }
}
